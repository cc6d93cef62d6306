/** The intrusive LRU cache: four lists and a hash table over the same nodes. */
module LruCache {
  import opened Seqs
  import opened Nodes
  import opened Table
  import Lru = LruTheorems
  import Spec = LruSpec

  class LRUCache<K(0, ==), V(0)> {
    const lru: Node<K, V>
    const inUse: Node<K, V>
    const free: Node<K, V>
    const erased: Node<K, V>
    const table: NodeTable<K, V>
    ghost const heads: set<Node<K, V>>
    var size: nat
    var capacity: nat
    /** Every node this cache owns, dummy heads included. */
    ghost var repr: set<Node<K, V>>
    /** What the cache holds, on values. */
    ghost var st: Spec.State<Node<K, V>, K>

    /** Four empty lists and no capacity. */
    constructor (table: NodeTable<K, V>)
      requires table.Valid() && table.contents == map[]
      ensures Valid() && this.table == table && st == Spec.State([], [], [], [])
      ensures capacity == 0 && repr == heads == {lru, inUse, free, erased}
      ensures fresh(lru) && fresh(inUse) && fresh(free) && fresh(erased)
    {
      hide IsRing, Rings, Inv, NodeTable.Valid, Spec.Inv, Spec.Maps;
      this.table := table;
      size, capacity := 0, 0;
      var l := new Node<K, V>.Head();
      var u := new Node<K, V>.Head();
      var f := new Node<K, V>.Head();
      var e := new Node<K, V>.Head();
      lru, inUse, free, erased := l, u, f, e;
      heads, repr := {l, u, f, e}, {l, u, f, e};
      st := Spec.State([], [], [], []);
      Spec.EmptyState<Node<K, V>, K>([], {l, u, f, e});
      new;
      NewRings();
      Close(0);
    }

    lemma NewRings()
      requires lru != inUse && lru != free && lru != erased && inUse != free && inUse != erased && free != erased
      requires heads == repr == {lru, inUse, free, erased}
      requires IsRing(lru) && IsRing(inUse) && IsRing(free) && IsRing(erased)
      requires lru.members == inUse.members == erased.members == free.members == []
      ensures Rings()
    {
    }

    /** Puts the nodes of `pool`, oldest first, into the free list of an unused cache. */
    method InitFrom(pool: seq<Node<K, V>>)
      requires Valid() && capacity == 0 && st == Spec.State([], [], [], []) && repr == heads
      requires |pool| > 0 && Distinct(pool) && table.contents == map[]
      requires forall n :: n in pool ==> n !in repr
      modifies `capacity, `st, `repr, free`next, free`prev, free`members, pool`next, pool`prev, pool`home
      ensures Valid() && st == Spec.State([], [], pool, []) && repr == heads + set n | n in pool
      ensures capacity == |pool|
    {
      hide Rings, IsRing, Match, Spec.Inv, Spec.Maps, table.Valid, Distinct;
      Open(0);
      Spec.EmptyState<Node<K, V>, K>(pool, repr + set n | n in pool);
      capacity := |pool|;
      AddPool(pool);
      Close(0);
    }

    method AddPool(pool: seq<Node<K, V>>)
      requires Rings() && Shape() && free.members == [] && |pool| > 0 && Distinct(pool)
      requires forall n :: n in pool ==> n !in repr
      modifies `st, `repr, free`next, free`prev, free`members, pool`next, pool`prev, pool`home
      ensures Rings() && Shape() && st == old(st).(free := pool) && repr == old(repr) + set n | n in pool
    {
      hide Linked, Match;
      LinkPool(free, pool);
      repr := repr + set n | n in pool;
      st := st.(free := pool);
    }

    /** A cache with a pool and a table of its own. */
    static method Create(capacity: nat, ghost hashOf: K -> nat) returns (c: LRUCache<K, V>)
      requires capacity > 0
      ensures fresh(c) && fresh(c.repr) && fresh(c.table) && fresh(c.table.list)
      ensures c.Valid() && c.capacity == capacity && c.table.hashOf == hashOf
      ensures c.table.contents == map[] && c.table.nodes == {}
      ensures c.st.lru == [] && c.st.inUse == [] && |c.st.free| == capacity && c.st.erased == []
    {
      hide LRUCache.Valid, NodeTable.Valid, LRUCache.Inv, LRUCache.Rings, LRUCache.Shape;
      var pool: seq<Node<K, V>> := [];
      while |pool| < capacity
        invariant |pool| <= capacity && Distinct(pool)
        invariant forall i :: 0 <= i < |pool| ==> fresh(pool[i])
      {
        var n := new Node<K, V>.Fresh();
        pool := pool + [n];
      }
      var table := new NodeTable<K, V>(capacity, hashOf);
      c := new LRUCache<K, V>(table);
      c.InitFrom(pool);
    }

    static method LinkPool(free: Node<K, V>, pool: seq<Node<K, V>>)
      requires |pool| > 0 && Distinct(pool) && free !in pool && free.home == free
      modifies free`next, free`prev, free`members, pool`next, pool`prev, pool`home
      ensures IsRing(free) && free.members == pool
    {
      free.next := pool[0];
      pool[0].prev := free;
      free.prev := pool[|pool| - 1];
      pool[|pool| - 1].next := free;
      for i := 0 to |pool| - 1
        invariant free.home == free
        invariant free.next == pool[0] && free.prev == pool[|pool| - 1]
        invariant pool[0].prev == free && pool[|pool| - 1].next == free
        invariant forall j {:trigger pool[j].next} :: 0 <= j < i ==> pool[j].next == pool[j + 1]
        invariant forall j {:trigger pool[j].prev} :: 0 < j <= i ==> pool[j].prev == pool[j - 1]
      {
        pool[i].next := pool[i + 1];
        pool[i + 1].prev := pool[i];
      }
      forall n | n in pool {
        n.home := free;
      }
      free.members := pool;
    }

    ghost predicate Rings()
      reads `repr, repr`next, repr`prev, repr`home, repr`members
    {
      && lru != inUse && lru != free && lru != erased && inUse != free && inUse != erased && free != erased
      && heads == {lru, inUse, free, erased}
      && heads <= repr
      && (forall h, i :: h in heads && 0 <= i < |h.members| ==> h.members[i] in repr)
      && (forall h :: h in heads ==> IsRing(h))
    }

    /** `e` belongs to the cache but is in none of its lists. */
    ghost predicate Detached(e: Node<K, V>)
      reads `repr, e`home, (if e.home == null then {} else {e.home})`members
    {
      e in repr && e !in heads && (e.home in heads ==> e !in e.home.members)
    }

    method Take(e: Node<K, V>, ghost i: nat)
      requires Rings() && e.home in heads && i < |e.home.members| && e == e.home.members[i]
      modifies repr`next, repr`prev, e.home`members
      ensures Rings() && e.home.members == RemoveAt(old(e.home.members), i)
      ensures Detached(e)
    {
      ListRemove(e, i);
    }

    method Put(list: Node<K, V>, e: Node<K, V>)
      requires Rings() && list in heads && Detached(e)
      modifies repr`next, repr`prev, e`home, list`members
      ensures Rings() && list.members == old(list.members) + [e] && e.home == list
    {
      ListAppend(list, e);
    }

    // --- the cache invariant ---

    /** The abstract entries are the nodes of a list with their keys and reference counts. */
    static ghost predicate Match(s: seq<Node<K, V>>, es: seq<Spec.Entry<Node<K, V>, K>>)
      reads s`key, s`refs
    {
      && |es| == |s|
      && forall i :: 0 <= i < |s| ==> es[i] == Spec.Entry(s[i], s[i].key, s[i].refs)
    }

    /** The abstract state describes the four lists. */
    ghost predicate Shape()
      reads `st, lru`members, inUse`members, free`members, erased`members
      reads lru.members`key, lru.members`refs, inUse.members`key, inUse.members`refs
    {
      && Match(lru.members, st.lru)
      && Match(inUse.members, st.inUse)
      && st.free == free.members
      && st.erased == erased.members
    }

    /** The invariant while `k` nodes are detached. */
    ghost predicate Inv(k: int)
      reads this, repr`next, repr`prev, repr`home, repr`members, repr`refs, repr`key
      reads table, table.list, table.nodes`nextHash, table.nodes`key, table.nodes`hash
    {
      && Rings()
      && Shape()
      && Spec.Inv(st)
      && table.Valid()
      && Spec.Maps(st, repr, table.contents)
      && size == Spec.Size(st)
      && capacity == Spec.Capacity(st) + k
    }

    ghost predicate Valid()
      reads this, repr`next, repr`prev, repr`home, repr`members, repr`refs, repr`key
      reads table, table.list, table.nodes`nextHash, table.nodes`key, table.nodes`hash
    {
      Inv(0)
    }

    // --- the invariant taken apart and put together, so that each step below sees only what it needs ---

    lemma Open(k: int)
      requires Inv(k)
      ensures Rings() && Shape() && Spec.Inv(st) && table.Valid() && Spec.Maps(st, repr, table.contents)
      ensures size == Spec.Size(st) && capacity == Spec.Capacity(st) + k
    {
    }

    lemma Close(k: int)
      requires Rings() && Shape() && Spec.Inv(st) && table.Valid() && Spec.Maps(st, repr, table.contents)
      requires size == Spec.Size(st) && capacity == Spec.Capacity(st) + k
      ensures Inv(k)
    {
    }

    /** The part of the invariant that does not involve the table. */
    ghost predicate Own()
      reads this, repr`next, repr`prev, repr`home, repr`members, repr`refs, repr`key
    {
      && Rings()
      && Shape()
      && Spec.Inv(st)
      && size == Spec.Size(st)
      && capacity == Spec.Capacity(st)
    }

    lemma Split()
      requires Valid()
      ensures Own() && table.Valid() && Spec.Maps(st, repr, table.contents)
    {
    }

    /** The invariant survives whatever other caches do to the table in their own nodes. */
    lemma Join(mine: set<Node<K, V>>, m: map<K, Node<K, V>>)
      requires Own() && table.Valid() && Spec.Maps(st, repr, m)
      requires Spec.AgreeOutside(mine, m, table.contents) && repr !! mine
      ensures Valid()
    {
      hide IsRing, Spec.Inv, Spec.Maps, Spec.AgreeOutside, table.Valid;
      Spec.MapsElsewhere(st, repr, mine, m, table.contents);
    }

    /** The oldest node of a list is what its dummy head points to. */
    lemma Oldest(h: Node<K, V>)
      requires Rings() && (h == lru || h == inUse || h == free || h == erased)
      ensures h in heads
      ensures h.next == if h.members == [] then h else h.members[0]
      ensures h.members != [] ==> h.members[0].home == h && h.members[0] != h
    {
    }

    lemma IdleNode(i: nat)
      requires Rings() && Shape() && i < |st.lru|
      ensures |lru.members| == |st.lru| && lru.members[i] == st.lru[i].slot && lru.members[i].home == lru
      ensures lru.members[i].key == st.lru[i].key && lru.members[i].refs == st.lru[i].refs
    {
    }

    lemma PinnedNode(j: nat)
      requires Rings() && Shape() && j < |st.inUse|
      ensures |inUse.members| == |st.inUse| && inUse.members[j] == st.inUse[j].slot && inUse.members[j].home == inUse
      ensures inUse.members[j].key == st.inUse[j].key && inUse.members[j].refs == st.inUse[j].refs
    {
    }

    /** The table leads from a pinned key to the node that counts its pins. */
    lemma PinnedHandle(k: K)
      requires Inv(0) && Spec.Pinned(st, k)
      ensures k in table.contents && table.contents[k] == Lru.HeldSlot(st, k)
      ensures table.contents[k].key == k && table.contents[k].refs == Lru.Pins(st, k) + 1
    {
      hide Rings, IsRing, Match, Shape, Spec.Inv, Spec.Maps, table.Valid;
      Open(0);
      var j := Spec.Find(st.inUse, k);
      Spec.RefsOf(st);
      Spec.MapsPinned(st, repr, table.contents, j);
      PinnedNode(j);
    }

    /** Where the table's nodes of this cache are. */
    lemma Locate(e: Node<K, V>)
      requires Inv(0) && e in repr && e in table.nodes
      ensures e.key in table.contents && table.contents[e.key] == e
      ensures Spec.Present(st, e.key)
      ensures if Spec.Idle(st, e.key) then e == st.lru[Spec.Find(st.lru, e.key)].slot && e.home == lru && e.refs == 1
              else e == st.inUse[Spec.Find(st.inUse, e.key)].slot && e.home == inUse && e.refs >= 2
    {
      hide Rings, IsRing, Match, Shape, Spec.Inv, Spec.Maps, table.Valid;
      Open(0);
      table.Knows(e);
      Spec.MapsOnly(st, repr, table.contents, e.key);
      Spec.RefsOf(st);
      if Spec.Idle(st, e.key) {
        var i := Spec.Find(st.lru, e.key);
        Spec.MapsIdle(st, repr, table.contents, i);
        IdleNode(i);
      } else {
        var j := Spec.Find(st.inUse, e.key);
        Spec.MapsPinned(st, repr, table.contents, j);
        PinnedNode(j);
      }
    }

    lemma FreeNotTabled(e: Node<K, V>)
      requires Inv(0) && e in repr && (e.home == free || e.home == erased)
      ensures e !in table.nodes
    {
      hide *;
      HeadsDiffer();
      if e in table.nodes {
        Locate(e);
      }
    }

    lemma HeadsDiffer()
      requires Inv(0)
      ensures lru != free && lru != erased && inUse != free && inUse != erased
    {
    }

    lemma Lengths()
      requires Shape()
      ensures |lru.members| == |st.lru| && |inUse.members| == |st.inUse|
      ensures free.members == st.free && erased.members == st.erased
    {
    }

    static lemma {:induction false} BagOfMatch(s: seq<Node<K, V>>, es: seq<Spec.Entry<Node<K, V>, K>>)
      requires Match(s, es)
      ensures Lru.SlotBag(es) == multiset(s)
    {
      if s != [] {
        BagOfMatch(s[..|s| - 1], es[..|es| - 1]);
        assert s == s[..|s| - 1] + [s[|s| - 1]];
      }
    }

    lemma MemberOfOne(h: Node<K, V>, n: Node<K, V>)
      requires Rings() && h in heads && n in h.members
      ensures n.home == h && n in repr && multiset(h.members)[n] == 1
    {
      DistinctCounts(h.members);
    }

    /** No slot is in two places: the lists hang off different heads. */
    lemma SlotsOnce()
      requires Valid()
      ensures Lru.SlotsDistinct(st)
      ensures forall n :: n in Lru.AllSlots(st) ==> n in repr
    {
      hide Spec.Inv, Spec.Maps, NodeTable.Valid, IsRing;
      BagOfMatch(lru.members, st.lru);
      BagOfMatch(inUse.members, st.inUse);
      hide Match, Lru.SlotBag;
      forall n | n in Lru.AllSlots(st)
        ensures Lru.AllSlots(st)[n] == 1 && n in repr
      {
        forall h | h in heads && n in h.members
          ensures n.home == h && n in repr && multiset(h.members)[n] == 1
        {
          MemberOfOne(h, n);
        }
      }
    }

    lemma MatchRemove(s: seq<Node<K, V>>, es: seq<Spec.Entry<Node<K, V>, K>>, i: nat)
      requires Match(s, es) && i < |es|
      ensures |s| == |es| && s[i] == es[i].slot
      ensures Match(RemoveAt(s, i), RemoveAt(es, i))
    {
    }

    lemma MatchAppend(s: seq<Node<K, V>>, es: seq<Spec.Entry<Node<K, V>, K>>, e: Node<K, V>)
      requires Match(s, es)
      ensures Match(s + [e], es + [Spec.Entry(e, e.key, e.refs)])
    {
    }

    // --- one list step at a time ---

    method TakeIdle(e: Node<K, V>, ghost i: nat)
      requires Rings() && Shape() && i < |st.lru| && e == st.lru[i].slot
      modifies `st, repr`next, repr`prev, lru`members
      ensures Rings() && Shape() && Detached(e) && e.home == lru
      ensures st == old(st).(lru := RemoveAt(old(st.lru), i))
    {
      hide RemoveAt, Match, Detached, IsRing;
      IdleNode(i);
      MatchRemove(lru.members, st.lru, i);
      Take(e, i);
      st := st.(lru := RemoveAt(st.lru, i));
      hide Rings;
    }

    method TakePinned(e: Node<K, V>, ghost j: nat)
      requires Rings() && Shape() && j < |st.inUse| && e == st.inUse[j].slot
      modifies `st, repr`next, repr`prev, inUse`members
      ensures Rings() && Shape() && Detached(e) && e.home == inUse
      ensures st == old(st).(inUse := RemoveAt(old(st.inUse), j))
    {
      hide RemoveAt, Match, Detached, IsRing;
      PinnedNode(j);
      MatchRemove(inUse.members, st.inUse, j);
      Take(e, j);
      st := st.(inUse := RemoveAt(st.inUse, j));
      hide Rings;
    }

    method TakeFree(e: Node<K, V>)
      requires Rings() && Shape() && st.free != [] && e == st.free[0]
      modifies `st, repr`next, repr`prev, free`members
      ensures Rings() && Shape() && Detached(e) && e.home == free
      ensures st == old(st).(free := RemoveAt(old(st.free), 0))
    {
      hide RemoveAt, Match, Detached;
      Take(e, 0);
      st := st.(free := RemoveAt(st.free, 0));
      hide Rings;
    }

    method TakeErased(e: Node<K, V>)
      requires Rings() && Shape() && st.erased != [] && e == st.erased[0]
      modifies `st, repr`next, repr`prev, erased`members
      ensures Rings() && Shape() && Detached(e) && e.home == erased
      ensures st == old(st).(erased := RemoveAt(old(st.erased), 0))
    {
      hide RemoveAt, Match, Detached;
      Take(e, 0);
      st := st.(erased := RemoveAt(st.erased, 0));
      hide Rings;
    }

    method PutIdle(e: Node<K, V>)
      requires Rings() && Shape() && Detached(e)
      modifies `st, repr`next, repr`prev, e`home, lru`members
      ensures Rings() && Shape() && e.home == lru
      ensures st == old(st).(lru := old(st.lru) + [Spec.Entry(e, e.key, e.refs)])
    {
      hide Match, Detached, IsRing;
      MatchAppend(lru.members, st.lru, e);
      Put(lru, e);
      st := st.(lru := st.lru + [Spec.Entry(e, e.key, e.refs)]);
      hide Rings;
    }

    method PutPinned(e: Node<K, V>)
      requires Rings() && Shape() && Detached(e)
      modifies `st, repr`next, repr`prev, e`home, inUse`members
      ensures Rings() && Shape() && e.home == inUse
      ensures st == old(st).(inUse := old(st.inUse) + [Spec.Entry(e, e.key, e.refs)])
    {
      hide Match, Detached, IsRing;
      MatchAppend(inUse.members, st.inUse, e);
      Put(inUse, e);
      st := st.(inUse := st.inUse + [Spec.Entry(e, e.key, e.refs)]);
      hide Rings;
    }

    method PutFree(e: Node<K, V>)
      requires Rings() && Shape() && Detached(e)
      modifies `st, repr`next, repr`prev, e`home, free`members
      ensures Rings() && Shape() && e.home == free
      ensures st == old(st).(free := old(st.free) + [e])
    {
      hide Match, Detached;
      Put(free, e);
      st := st.(free := st.free + [e]);
      hide Rings;
    }

    method PutErased(e: Node<K, V>)
      requires Rings() && Shape() && Detached(e)
      modifies `st, repr`next, repr`prev, e`home, erased`members
      ensures Rings() && Shape() && e.home == erased
      ensures st == old(st).(erased := old(st.erased) + [e])
    {
      hide Match, Detached;
      Put(erased, e);
      st := st.(erased := st.erased + [e]);
      hide Rings;
    }

    /** Removes `e` from the table; the lists do not notice. */
    method Untable(e: Node<K, V>)
      requires Rings() && Shape() && table.Valid() && Detached(e)
      requires e.key in table.contents && table.contents[e.key] == e
      modifies table`chains, table`contents, table`nodes, table.list, table.nodes`nextHash
      ensures Rings() && Shape() && table.Valid() && Detached(e)
      ensures table.contents == old(table.contents) - {e.key} && table.nodes == old(table.nodes) - {e}
    {
      hide *;
      table.Holds(e.key);
      var e' := table.Remove(e.key, e.hash);
    }

    method AllocNode() returns (e: Node?<K, V>)
      requires Valid()
      modifies `st, `size, repr`next, repr`prev, lru`members, free`members
      modifies table`chains, table`contents, table`nodes, table.list, table.nodes`nextHash
      ensures e == null <==> Spec.Full(old(st))
      ensures e == null ==> Valid() && st == old(st)
      ensures e == null ==> table.contents == old(table.contents) && table.nodes == old(table.nodes)
      ensures e != null ==> Inv(1) && Detached(e) && e == Spec.NextSlot(old(st)) && st == Spec.Alloc(old(st))
      ensures e != null ==> table.contents == Spec.AllocMap(old(st), old(table.contents))
      ensures e != null ==> e !in table.nodes && table.nodes <= old(table.nodes) <= table.nodes + {e}
    {
      hide Rings, IsRing, Match, Shape, Spec.Inv, Spec.Maps, table.Valid, Detached, RemoveAt;
      Open(0);
      Lengths();
      Oldest(free);
      Oldest(lru);
      if free.next != free {
        e := free.next;
        FreeNotTabled(e);
        Spec.IdleSlotsIrrelevant(st, repr, table.contents, RemoveAt(st.free, 0), st.erased);
        TakeFree(e);
        Close(1);
      } else if lru.next == lru {
        e := null;
      } else {
        e := Evict();
      }
    }

    /** Recycles the oldest idle node. */
    method Evict() returns (e: Node<K, V>)
      requires Valid() && st.lru != []
      modifies `st, `size, repr`next, repr`prev, lru`members
      modifies table`chains, table`contents, table`nodes, table.list, table.nodes`nextHash
      ensures Inv(1) && Detached(e) && e == old(st.lru)[0].slot
      ensures st == old(st).(lru := RemoveAt(old(st.lru), 0))
      ensures table.contents == old(table.contents) - {old(st.lru)[0].key} && table.nodes == old(table.nodes) - {e}
    {
      hide Rings, IsRing, Match, Shape, Spec.Inv, Spec.Maps, table.Valid, Detached, RemoveAt;
      Open(0);
      Oldest(lru);
      IdleNode(0);
      e := lru.next;
      Spec.MapsIdle(st, repr, table.contents, 0);
      Spec.EvictKeeps(st, repr, table.contents);
      TakeIdle(e, 0);
      Untable(e);
      size := size - 1;
      Close(1);
    }

    lemma Nowhere(e: Node<K, V>)
      requires Rings() && Detached(e)
      ensures e !in lru.members && e !in inUse.members
    {
    }

    /** Changes the reference count of the `j`-th pinned node. */
    method SetRefs(e: Node<K, V>, n: nat, ghost j: nat)
      requires Rings() && Shape() && j < |st.inUse| && e == st.inUse[j].slot
      modifies `st, e`refs
      ensures Rings() && Shape() && e.refs == n
      ensures st == old(st).(inUse := old(st.inUse)[j := old(st.inUse)[j].(refs := n)])
    {
      PinnedOnly(j);
      hide Rings, IsRing;
      e.refs := n;
      st := st.(inUse := st.inUse[j := st.inUse[j].(refs := n)]);
    }

    lemma PinnedOnly(j: nat)
      requires Rings() && Shape() && j < |st.inUse|
      ensures var e := st.inUse[j].slot;
              && inUse.members[j] == e && e !in lru.members
              && forall i :: 0 <= i < |st.inUse| && i != j ==> inUse.members[i] != e
    {
    }

    /** Gives a detached node its key. */
    method Prepare(e: Node<K, V>, key: K, hash: nat)
      requires Rings() && Shape() && table.Valid() && Detached(e) && e !in table.nodes
      modifies e`refs, e`hash, e`key
      ensures Rings() && Shape() && table.Valid() && Detached(e)
      ensures e.refs == 1 && e.hash == hash && e.key == key
    {
      Nowhere(e);
      hide *;
      e.Init(key, hash);
    }

    method Retain(e: Node<K, V>)
      requires Rings() && Shape() && Detached(e)
      modifies e`refs
      ensures Rings() && Shape() && Detached(e) && e.refs == old(e.refs) + 1
    {
      Nowhere(e);
      hide *;
      e.refs := e.refs + 1;
    }

    /** Drops the table's own reference of a node that left it. */
    method Forget(e: Node<K, V>)
      requires Rings() && Shape() && e.refs > 0 && e.home == erased
      modifies e`refs
      ensures Rings() && Shape() && e.refs == old(e.refs) - 1
    {
      e.refs := e.refs - 1;
    }

    /** Adds `e` to the table; the lists do not notice. */
    method Tabulate(e: Node<K, V>)
      requires Rings() && Shape() && table.Valid() && Detached(e)
      requires e.hash == table.hashOf(e.key) && e.key !in table.contents
      modifies table`chains, table`contents, table`nodes, table.list, e`nextHash
      ensures Rings() && Shape() && table.Valid() && Detached(e)
      ensures table.contents == old(table.contents)[e.key := e] && table.nodes == old(table.nodes) + {e}
    {
      hide *;
      table.Insert(e);
    }

    /** Links a detached node as the newest idle, or pinned, one. */
    method Place(e: Node<K, V>, pin: bool)
      requires Rings() && Shape() && table.Valid() && Detached(e) && e.refs == 1
      modifies `st, repr`next, repr`prev, e`home, e`refs, lru`members, inUse`members
      ensures Rings() && Shape() && table.Valid()
      ensures st == Spec.Add(old(st), e, e.key, pin) && e.refs == if pin then 2 else 1
    {
      hide Rings, Shape, table.Valid, Detached;
      if pin {
        Retain(e);
        PutPinned(e);
      } else {
        PutIdle(e);
      }
    }

    /** Gives a detached node a key and puts it to use. */
    method Enter(e: Node<K, V>, key: K, hash: nat, pin: bool, ghost k: int)
      requires Inv(k) && Detached(e) && e !in table.nodes
      requires hash == table.hashOf(key) && key !in table.contents
      modifies `st, `size, repr`next, repr`prev, e`home, lru`members, inUse`members
      modifies e`refs, e`hash, e`key, e`nextHash
      modifies table`chains, table`contents, table`nodes, table.list
      ensures Inv(k - 1) && st == Spec.Add(old(st), e, key, pin)
      ensures table.contents == old(table.contents)[key := e] && table.nodes == old(table.nodes) + {e}
      ensures e.refs == if pin then 2 else 1
    {
      hide Rings, IsRing, Match, Shape, Spec.Inv, Spec.Maps, table.Valid, Detached, RemoveAt,
           Spec.Add, Spec.Find;
      Open(k);
      Prepare(e, key, hash);
      Tabulate(e);
      Spec.AddKeeps(st, repr, old(table.contents), e, key, pin);
      Place(e, pin);
      size := size + 1;
      Close(k - 1);
    }

    // --- the operations ---

    /** `e` is a node of this cache that currently holds a key. */
    ghost predicate Live(e: Node<K, V>)
      reads `repr, table`nodes
    {
      e in repr && e in table.nodes
    }

    /** Moves an idle node to the newest end and returns the node that takes its place. */
    method LruRefresh(e: Node<K, V>) returns (successor: Node<K, V>)
      requires Valid() && Live(e) && Spec.Idle(st, e.key)
      modifies `st, repr`next, repr`prev, e`home, lru`members
      ensures Valid() && st == Spec.Refresh(old(st), Spec.Find(old(st.lru), e.key))
      ensures var i := Spec.Find(old(st.lru), e.key);
              successor == if i + 1 < |old(st.lru)| then old(st.lru)[i + 1].slot else e
    {
      hide Rings, IsRing, Match, Shape, Spec.Inv, Spec.Maps, table.Valid, Detached, RemoveAt;
      Locate(e);
      Open(0);
      ghost var i := Spec.Find(st.lru, e.key);
      NextOf(i);
      successor := e.next;
      if successor == lru {
        Spec.RefreshNewest(st, i);
        return e;
      }
      Spec.RefreshKeeps(st, repr, table.contents, i);
      TakeIdle(e, i);
      PutIdle(e);
      IdleNode(|st.lru| - 1);
      Close(0);
    }

    lemma NextOf(i: nat)
      requires Rings() && Shape() && i < |st.lru|
      ensures st.lru[i].slot.next == if i + 1 < |st.lru| then st.lru[i + 1].slot else lru
      ensures i + 1 < |st.lru| ==> st.lru[i + 1].slot != lru
      ensures st.lru[i] == Spec.Entry(st.lru[i].slot, st.lru[i].slot.key, st.lru[i].slot.refs)
    {
    }

    /** The first pin of the `i`-th idle node. */
    method PinFirst(e: Node<K, V>, ghost i: nat)
      requires Rings() && Shape() && i < |st.lru| && e == st.lru[i].slot
      modifies `st, repr`next, repr`prev, e`home, e`refs, lru`members, inUse`members
      ensures Rings() && Shape()
      ensures var l := old(st.lru);
              st == old(st).(lru := RemoveAt(l, i), inUse := old(st.inUse) + [l[i].(refs := l[i].refs + 1)])
    {
      hide Rings, Shape, Detached, RemoveAt;
      IdleEntry(i);
      Spec.AppendThenUpdate(st.inUse, st.lru[i], e.refs + 1);
      ghost var j := |st.inUse|;
      TakeIdle(e, i);
      PutPinned(e);
      SetRefs(e, e.refs + 1, j);
    }

    lemma IdleEntry(i: nat)
      requires Rings() && Shape() && i < |st.lru|
      ensures var e := st.lru[i].slot;
              st.lru[i] == Spec.Entry(e, e.key, e.refs)
    {
      IdleNode(i);
    }

    /** One more reference; an idle node moves to the pinned list. */
    method Ref(e: Node<K, V>)
      requires Valid() && Live(e)
      modifies `st, repr`next, repr`prev, e`home, e`refs, lru`members, inUse`members
      ensures Valid() && st == Spec.Pin(old(st), e.key)
    {
      hide Rings, IsRing, Match, Shape, Spec.Inv, Spec.Maps, table.Valid, Detached, RemoveAt,
           Spec.Pin, Spec.Release, Spec.Find;
      Locate(e);
      Open(0);
      if e.refs == 1 {
        ghost var i := Spec.Find(st.lru, e.key);
        IdleNode(i);
        Spec.PinIdleKeeps(st, repr, table.contents, i);
        PinFirst(e, i);
      } else {
        ghost var j := Spec.Find(st.inUse, e.key);
        PinnedNode(j);
        Spec.RepinKeeps(st, repr, table.contents, j, e.refs + 1);
        SetRefs(e, e.refs + 1, j);
      }
      Close(0);
    }

    /** Lowers the count of the `j`-th pinned node and, if that was its last pin, relinks it. */
    method Loosen(e: Node<K, V>, ghost j: nat)
      requires Rings() && Shape() && j < |st.inUse| && e == st.inUse[j].slot && e.refs > 1
      modifies `st, repr`next, repr`prev, e`home, e`refs, lru`members, inUse`members
      ensures Rings() && Shape()
      ensures st == Spec.Released(old(st), j)
    {
      hide Rings, Shape, Detached, RemoveAt;
      PinnedEntry(j);
      SetRefs(e, e.refs - 1, j);
      if e.refs == 1 {
        Spec.UpdateThenRemove(old(st).inUse, j, old(st).inUse[j].(refs := 1));
        TakePinned(e, j);
        PutIdle(e);
      }
    }

    lemma PinnedEntry(j: nat)
      requires Rings() && Shape() && j < |st.inUse|
      ensures var e := st.inUse[j].slot;
              st.inUse[j] == Spec.Entry(e, e.key, e.refs)
    {
      PinnedNode(j);
    }

    /** One reference less; a node without other references becomes the newest idle one. */
    method Unref(e: Node<K, V>)
      requires Valid() && Live(e) && e.refs > 1
      modifies `st, repr`next, repr`prev, e`home, e`refs, lru`members, inUse`members
      ensures Valid() && st == Spec.Release(old(st), e.key)
    {
      hide Rings, IsRing, Match, Shape, Spec.Inv, Spec.Maps, table.Valid, Detached, RemoveAt,
           Spec.Released, Spec.Release, Spec.Find;
      Locate(e);
      Open(0);
      ghost var j := Spec.Find(st.inUse, e.key);
      PinnedNode(j);
      Spec.ReleasedKeeps(st, repr, table.contents, j);
      Loosen(e, j);
      Close(0);
    }

    method LookupRefresh(e: Node<K, V>, pin: bool)
      requires Valid() && Live(e)
      modifies `st, repr`next, repr`prev, e`home, e`refs, lru`members, inUse`members
      ensures Valid() && st == Spec.Lookup(old(st), e.key, pin)
    {
      Locate(e);
      if pin {
        Ref(e);
      } else if e.refs == 1 {
        var _ := LruRefresh(e);
      }
    }

    /** Finds a key in a table that serves this cache alone. */
    method LookupImpl(key: K, hash: nat, pin: bool) returns (e: Node?<K, V>)
      requires Valid() && table.nodes <= repr && hash == table.hashOf(key)
      modifies `st, repr`next, repr`prev, repr`home, repr`refs, lru`members, inUse`members
      ensures Valid() && st == Spec.Lookup(old(st), key, pin)
      ensures e == if key in table.contents then table.contents[key] else null
      ensures e == null <==> !Spec.Present(old(st), key)
    {
      hide Rings, IsRing, Match, Shape, Spec.Inv, Spec.Maps, table.Valid;
      Open(0);
      e := table.Lookup(key, hash);
      AbsentIff(key);
      if e != null {
        table.Holds(key);
        LookupRefresh(e, pin);
      }
    }

    /** Among this cache's own nodes, the table and the lists agree on which keys are held. */
    lemma AbsentIff(key: K)
      requires Valid()
      ensures Spec.Present(st, key) <==> key in table.contents && table.contents[key] in repr
    {
    }

    /**
     * Returns the node of `key`, inserting it if absent; null when it is absent and nothing
     * can be evicted.  The hint promises that the key is absent.
     */
    method InsertImpl(key: K, hash: nat, pin: bool, hintNonexist: bool) returns (e: Node?<K, V>)
      requires Valid() && capacity > 0 && hash == table.hashOf(key)
      requires if hintNonexist then key !in table.contents else table.nodes <= repr
      modifies `st, `size, repr`next, repr`prev, repr`home, repr`refs, repr`hash, repr`key, repr`nextHash
      modifies lru`members, inUse`members, free`members
      modifies table`chains, table`contents, table`nodes, table.list, table.nodes`nextHash
      ensures Valid() && st == Spec.Insert(old(st), key, pin)
      ensures table.contents == Spec.InsertMap(old(st), old(table.contents), key)
      ensures e == if key in table.contents then table.contents[key] else null
      ensures e == null <==> !Spec.Present(old(st), key) && Spec.Full(old(st))
      ensures table.nodes - repr == old(table.nodes) - repr
      ensures e != null ==> e in repr
      ensures if e == null then table.nodes == old(table.nodes) else table.nodes <= old(table.nodes) + {e}
    {
      hide Rings, IsRing, Match, Shape, Spec.Inv, Spec.Maps, table.Valid, RemoveAt;
      AbsentIff(key);
      if !hintNonexist {
        e := LookupImpl(key, hash, pin);
        if e != null {
          return;
        }
      }
      e := AllocNode();
      if e != null {
        Enter(e, key, hash, pin, 1);
      }
    }

    /** The next slot, and the key evicted from it, are this cache's own. */
    lemma NextOwned()
      requires Valid() && !Spec.Full(st)
      ensures Spec.NextSlot(st) in repr
      ensures st.free == [] ==> st.lru[0].key in table.contents && table.contents[st.lru[0].key] in repr
    {
      hide IsRing, table.Valid, Spec.Maps;
      if st.free == [] {
        AbsentIff(st.lru[0].key);
      }
    }

    /** Evictions and insertions change the table only in nodes of this cache. */
    lemma AllocElsewhere()
      requires Valid() && !Spec.Full(st)
      ensures Spec.AgreeOutside(repr, table.contents, Spec.AllocMap(st, table.contents))
    {
      hide Valid, Spec.Full;
      NextOwned();
    }

    lemma InsertElsewhere(key: K)
      requires Valid() && key !in table.contents
      ensures Spec.AgreeOutside(repr, table.contents, Spec.InsertMap(st, table.contents, key))
    {
      hide Valid, Spec.Present, Spec.Full;
      if !Spec.Full(st) {
        NextOwned();
      }
    }

    lemma EraseElsewhere(e: Node<K, V>)
      requires Valid() && Live(e)
      ensures Spec.AgreeOutside(repr, table.contents, table.contents - {e.key})
    {
      Locate(e);
    }

    /** Gives back one reference taken by pinning. */
    method Release(e: Node<K, V>)
      requires Valid() && Live(e) && e.refs > 1
      modifies `st, repr`next, repr`prev, e`home, e`refs, lru`members, inUse`members
      ensures Valid() && st == Spec.Release(old(st), e.key)
    {
      Unref(e);
    }

    method Pin(e: Node<K, V>)
      requires Valid() && Live(e)
      modifies `st, repr`next, repr`prev, e`home, e`refs, lru`members, inUse`members
      ensures Valid() && st == Spec.Pin(old(st), e.key)
    {
      Ref(e);
    }

    /**
     * The ghost cache's insertion: never pins, and reports the node that now has the place
     * the key had before, null if the key is new.
     */
    method Refresh(key: K, hash: nat) returns (e: Node?<K, V>, successor: Node?<K, V>)
      requires Valid() && capacity > 0 && hash == table.hashOf(key)
      requires table.nodes <= repr && !Spec.Pinned(st, key)
      modifies `st, `size, repr`next, repr`prev, repr`home, repr`refs, repr`hash, repr`key, repr`nextHash
      modifies lru`members, inUse`members, free`members
      modifies table`chains, table`contents, table`nodes, table.list, table.nodes`nextHash
      ensures Valid() && st == Spec.Insert(old(st), key, false)
      ensures table.nodes <= repr
      ensures e == if key in table.contents then table.contents[key] else null
      ensures e == null <==> !Spec.Present(old(st), key) && Spec.Full(old(st))
      ensures var i := Spec.Find(old(st.lru), key);
              successor == if i == |old(st.lru)| then null
                           else if i + 1 < |old(st.lru)| then old(st.lru)[i + 1].slot else e
    {
      hide Rings, IsRing, Match, Shape, Spec.Inv, Spec.Maps, table.Valid, RemoveAt;
      AbsentIff(key);
      Open(0);
      e := table.Lookup(key, hash);
      if e != null {
        table.Holds(key);
        successor := LruRefresh(e);
        return;
      }
      successor := null;
      e := AllocNode();
      if e != null {
        Enter(e, key, hash, false, 1);
      }
    }

    method Discard(e: Node<K, V>, ghost i: nat)
      requires Rings() && Shape() && table.Valid() && i < |st.lru| && e == st.lru[i].slot
      requires e.key in table.contents && table.contents[e.key] == e && e.refs == 1
      modifies `st, repr`next, repr`prev, e`home, e`refs, lru`members, erased`members
      modifies table`chains, table`contents, table`nodes, table.list, table.nodes`nextHash
      ensures Rings() && Shape() && table.Valid()
      ensures st == old(st).(lru := RemoveAt(old(st.lru), i), erased := old(st.erased) + [e])
      ensures table.contents == old(table.contents) - {e.key} && table.nodes == old(table.nodes) - {e}
    {
      hide Rings, Shape, table.Valid, Detached, RemoveAt;
      TakeIdle(e, i);
      Untable(e);
      PutErased(e);
      Forget(e);
    }

    /** Takes the `i`-th idle node out of circulation. */
    method EraseIdle(e: Node<K, V>, ghost i: nat)
      requires Valid() && Live(e) && i < |st.lru| && e == st.lru[i].slot && e.key == st.lru[i].key && e.refs == 1
      requires e.key in table.contents && table.contents[e.key] == e
      modifies `st, `size, `capacity, repr`next, repr`prev, e`home, e`refs, lru`members, erased`members
      modifies table`chains, table`contents, table`nodes, table.list, table.nodes`nextHash
      ensures Valid() && st == Spec.Erase(old(st), e.key)
      ensures table.contents == old(table.contents) - {e.key} && table.nodes == old(table.nodes) - {e}
    {
      hide Rings, IsRing, Match, Shape, Spec.Inv, Spec.Maps, table.Valid, Detached, RemoveAt, Spec.Erase, Spec.Find;
      Open(0);
      Spec.EraseKeeps(st, repr, table.contents, i);
      Discard(e, i);
      size := size - 1;
      capacity := capacity - 1;
      Close(0);
    }

    /** Takes an idle node out of circulation; fails on a pinned one. */
    method Erase(e: Node<K, V>) returns (ok: bool)
      requires Valid() && Live(e)
      modifies `st, `size, `capacity, repr`next, repr`prev, e`home, e`refs, lru`members, erased`members
      modifies table`chains, table`contents, table`nodes, table.list, table.nodes`nextHash
      ensures Valid() && st == Spec.Erase(old(st), e.key)
      ensures ok <==> Spec.Idle(old(st), e.key)
      ensures table.contents == if ok then old(table.contents) - {e.key} else old(table.contents)
      ensures table.nodes == if ok then old(table.nodes) - {e} else old(table.nodes)
    {
      hide Valid, Spec.Erase;
      Located(e);
      if e.refs != 1 {
        Spec.EraseMisses(st, e.key);
        return false;
      }
      EraseIdle(e, Spec.Find(st.lru, e.key));
      return true;
    }

    /** `Locate`, for an erasure. */
    lemma Located(e: Node<K, V>)
      requires Valid() && Live(e)
      ensures e.key in table.contents && table.contents[e.key] == e
      ensures e.refs == 1 <==> Spec.Idle(st, e.key)
      ensures Spec.Idle(st, e.key) ==> e == st.lru[Spec.Find(st.lru, e.key)].slot
    {
      Locate(e);
    }

    /** An erased node, taken off its list, or a newly allocated one. */
    method Spare() returns (e: Node<K, V>)
      requires Valid()
      modifies `st, `repr, repr`next, repr`prev, erased`members
      ensures Inv(0) && Detached(e) && e !in table.nodes
      ensures if old(st.erased) == [] then fresh(e) else e in old(repr) && e == old(st.erased)[0]
      ensures repr == old(repr) + {e}
      ensures st == if old(st.erased) == [] then old(st) else old(st).(erased := RemoveAt(old(st.erased), 0))
    {
      hide Rings, IsRing, Match, Shape, Spec.Inv, Spec.Maps, table.Valid, Detached, RemoveAt;
      Open(0);
      Lengths();
      Oldest(erased);
      if erased.next == erased {
        e := new Node<K, V>.Fresh();
        Admit(e);
      } else {
        e := erased.next;
        FreeNotTabled(e);
        Spec.IdleSlotsIrrelevant(st, repr, table.contents, st.free, RemoveAt(st.erased, 0));
        TakeErased(e);
      }
      Close(0);
    }

    /** A new idle entry in an erased node, or in a newly allocated one. */
    method InstallImpl(key: K, hash: nat) returns (e: Node<K, V>)
      requires Valid() && hash == table.hashOf(key) && key !in table.contents
      modifies `st, `size, `capacity, `repr
      modifies repr`next, repr`prev, repr`home, repr`refs, repr`hash, repr`key, repr`nextHash
      modifies lru`members, inUse`members, erased`members
      modifies table`chains, table`contents, table`nodes, table.list
      ensures Valid() && st == Spec.Install(old(st), key, e)
      ensures if old(st.erased) == [] then fresh(e) else e in old(repr)
      ensures repr == old(repr) + {e} && e in table.nodes
      ensures table.contents == old(table.contents)[key := e] && table.nodes == old(table.nodes) + {e}
    {
      hide Inv, Detached;
      e := Spare();
      Enter(e, key, hash, false, 0);
      Recount();
    }

    /** The capacity catches up with a slot that was added. */
    method Recount()
      requires Inv(-1)
      modifies `capacity
      ensures Valid() && capacity == old(capacity) + 1
    {
      hide Rings, Shape, Spec.Inv, Spec.Maps, table.Valid;
      Open(-1);
      capacity := capacity + 1;
      Close(0);
    }

    /** Gives a node away for good: a free one, else the oldest idle one, else none. */
    method Preempt() returns (e: Node?<K, V>)
      requires Valid()
      modifies `st, `size, `capacity, `repr, repr`next, repr`prev, lru`members, free`members
      modifies table`chains, table`contents, table`nodes, table.list, table.nodes`nextHash
      ensures Valid() && st == Spec.Preempt(old(st))
      ensures e == null <==> Spec.Full(old(st))
      ensures e == null ==> repr == old(repr)
      ensures e == null ==> table.contents == old(table.contents) && table.nodes == old(table.nodes)
      ensures e != null ==> e == Spec.NextSlot(old(st)) && repr == old(repr) - {e} && e in old(repr)
      ensures e != null ==> table.contents == Spec.AllocMap(old(st), old(table.contents))
      ensures e != null ==> e !in table.nodes && table.nodes <= old(table.nodes) <= table.nodes + {e}
    {
      hide Rings, IsRing, Match, Shape, Spec.Inv, Spec.Maps, table.Valid, RemoveAt;
      e := AllocNode();
      if e != null {
        Open(1);
        capacity := capacity - 1;
        Dismiss(e);
        Close(0);
      }
    }

    /** Receives a node, given away elsewhere, as a free one. */
    method Assign(e: Node<K, V>)
      requires Valid() && e !in repr && e !in table.nodes
      modifies `st, `capacity, `repr, repr`next, repr`prev, e`next, e`prev, e`home, free`members
      ensures Valid() && st == Spec.Assign(old(st), e) && repr == old(repr) + {e}
    {
      hide Rings, IsRing, Match, Shape, Spec.Inv, Spec.Maps, table.Valid, Detached, RemoveAt;
      Open(0);
      capacity := capacity + 1;
      Admit(e);
      Spec.IdleSlotsIrrelevant(st, repr, table.contents, st.free + [e], st.erased);
      PutFree(e);
      Close(0);
    }

    /** A node enters the cache's ownership. */
    ghost method Admit(e: Node<K, V>)
      requires Rings() && Shape() && table.Valid() && Spec.Maps(st, repr, table.contents)
      requires e !in repr && e !in table.nodes
      modifies `repr
      ensures Rings() && Shape() && Detached(e) && Spec.Maps(st, repr, table.contents) && repr == old(repr) + {e}
    {
      hide IsRing, Match, Spec.Maps, table.Valid;
      Outside(e);
      NotMapped(e);
      Spec.MapsOwner(st, repr, table.contents, e);
      repr := repr + {e};
    }

    lemma Outside(e: Node<K, V>)
      requires Rings() && e !in repr
      ensures e !in heads && (e.home in heads ==> e !in e.home.members)
    {
    }

    lemma NotMapped(e: Node<K, V>)
      requires table.Valid() && e !in table.nodes
      ensures forall k :: k in table.contents ==> table.contents[k] != e
    {
    }

    /** A detached node leaves the cache's ownership. */
    ghost method Dismiss(e: Node<K, V>)
      requires Rings() && Shape() && Detached(e) && Spec.Maps(st, repr, table.contents)
      modifies `repr
      ensures Rings() && Shape() && Spec.Maps(st, repr, table.contents) && repr == old(repr) - {e}
    {
      Spec.MapsFewer(st, repr, table.contents, repr - {e});
      hide Spec.Maps, Match;
      repr := repr - {e};
    }

    /** Visits the idle nodes from the oldest to the newest. */
    method ForEachLru() returns (keys: seq<K>)
      requires Valid()
      ensures keys == Spec.KeysOf(st.lru)
    {
      hide Match, Spec.Inv, Spec.Maps, table.Valid;
      keys := [];
      var h := lru.next;
      while h != lru
        invariant |keys| <= |lru.members|
        invariant h == if |keys| < |lru.members| then lru.members[|keys|] else lru
        invariant forall i :: 0 <= i < |keys| ==> keys[i] == lru.members[i].key
        decreases |lru.members| - |keys|
      {
        keys := keys + [h.key];
        h := h.next;
      }
      Lengths();
      forall i | 0 <= i < |keys|
        ensures |keys| == |st.lru| && keys[i] == st.lru[i].key
      {
        IdleNode(i);
      }
    }

    /** What users of the cache may take for granted. */
    lemma Facts()
      requires Valid()
      ensures Spec.Inv(st) && size == Spec.Size(st) && capacity == Spec.Capacity(st)
      ensures lru in repr && inUse in repr && free in repr && erased in repr
    {
    }

    lemma Tabled(i: nat)
      requires Valid() && i < |st.lru|
      ensures st.lru[i].key in table.contents && table.contents[st.lru[i].key] == st.lru[i].slot
    {
      hide Rings, IsRing, Match, Shape, Spec.Inv, table.Valid;
    }

    /** The idle nodes, as the ring links them. */
    lemma IdleRing()
      requires Valid()
      ensures forall i, j :: 0 <= i < j < |st.lru| ==> st.lru[i].slot != st.lru[j].slot
      ensures forall i {:trigger st.lru[i]} :: 0 <= i < |st.lru| ==>
                st.lru[i].slot in repr && st.lru[i].slot.key == st.lru[i].key
      ensures forall i {:trigger st.lru[i].slot.next} :: 0 <= i < |st.lru| - 1 ==>
                st.lru[i].slot.next == st.lru[i + 1].slot
      ensures st.lru != [] ==> lru.next == st.lru[0].slot
    {
    }

    /** The idle nodes, walked from the newest. */
    lemma IdleRingBack()
      requires Valid()
      ensures forall i {:trigger st.lru[i].slot.prev} :: 0 <= i < |st.lru| ==>
                st.lru[i].slot.prev == (if i > 0 then st.lru[i - 1].slot else lru) && st.lru[i].slot != lru
      ensures lru.prev == if st.lru == [] then lru else st.lru[|st.lru| - 1].slot
    {
      hide Rings, IsRing, Shape, Match, Inv;
      Open(0);
      Lengths();
      forall i | 0 <= i < |st.lru|
        ensures lru.members[i] == st.lru[i].slot && |lru.members| == |st.lru|
      {
        IdleNode(i);
      }
      LinkedBack();
    }

    /** The same of the list itself. */
    lemma LinkedBack()
      requires Rings()
      ensures forall i {:trigger lru.members[i].prev} :: 0 <= i < |lru.members| ==>
                lru.members[i].prev == (if i > 0 then lru.members[i - 1] else lru) && lru.members[i] != lru
      ensures lru.prev == if lru.members == [] then lru else lru.members[|lru.members| - 1]
    {
      assert IsRing(lru);
    }
  }
}
