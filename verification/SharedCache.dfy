/** The cache shared by several tenants: one lookup table, one LRU cache for each tenant. */
module SharedCache {
  import opened Seqs
  import opened Nodes
  import opened Table
  import opened LruCache
  import Lru = LruTheorems
  import Shared = SharedSpec
  import Spec = LruSpec

  /** What a node stores: the tag of the tenant that inserted its key, and the user's value. */
  datatype Tagged<T, V> = Tagged(tag: T, value: V)

  datatype TenantConfig<T> = TenantConfig(tag: T, capacity: nat)

  function Capacities<T>(configs: seq<TenantConfig<T>>): nat {
    if configs == [] then 0 else Capacities(configs[..|configs| - 1]) + configs[|configs| - 1].capacity
  }

  lemma {:induction false} CapacitiesPrefix<T>(configs: seq<TenantConfig<T>>, i: nat)
    requires i <= |configs|
    ensures Capacities(configs[..i]) <= Capacities(configs)
    ensures i < |configs| ==> Capacities(configs[..i + 1]) == Capacities(configs[..i]) + configs[i].capacity
    decreases |configs| - i
  {
    if i == |configs| {
      assert configs[..i] == configs;
    } else {
      CapacitiesPrefix(configs, i + 1);
      assert configs[..i + 1][..i] == configs[..i];
    }
  }

  class SharedCache<T(0, ==), K(0, ==, !new), V(0)> {
    /** Fixed once the cache is set up. */
    const tenants: map<T, LRUCache<K, Tagged<T, V>>>
    ghost const caches: set<LRUCache<K, Tagged<T, V>>>
    const table: NodeTable<K, Tagged<T, V>>
    const hash: K -> nat
    var totalCapacity: nat
    /** Every node of every tenant. */
    ghost var repr: set<Node<K, Tagged<T, V>>>
    /** What the tenants started with, and everything that was ever done to them. */
    ghost var origin: Shared.Tenants<T, Node<K, Tagged<T, V>>, K>
    ghost var history: seq<Shared.Op<T, Node<K, Tagged<T, V>>, K>>

    /** One cache for each tenant, each with its own share of one pool of nodes. */
    constructor (configs: seq<TenantConfig<T>>, hash: K -> nat)
      requires Proper(configs)
      ensures Valid() && this.hash == hash && totalCapacity == Capacities(configs)
      ensures SetUp(State(), configs) && origin == State() && history == []
    {
      hide Core, Together, NodeTable.Valid, Shared.Total, Capacities, Starts, Proper, Valid;
      var total := TotalOf(configs);
      var nodes := new NodeTable<K, Tagged<T, V>>(total, hash);
      var pool := NewPool(total);
      var ts, cs, ns, m := Build(configs, pool, nodes);
      this.hash := hash;
      table := nodes;
      tenants := ts;
      caches := cs;
      repr := ns;
      totalCapacity := total;
      origin := m;
      history := [];
      new;
      Settled();
      assert State() == m;
      Begin();
    }

    /** The history starts here. */
    lemma Begin()
      requires Core() && origin == State() && history == [] && totalCapacity == Shared.Total(State())
      ensures Valid()
    {
      hide Core, Shared.Total, Shared.Inv, Shared.SlotsApart;
      InOrder();
      SlotsInOrder();
    }

    lemma Settled()
      requires Together(tenants, caches, repr, table) && table.Valid() && table.nodes == {} && table.hashOf == hash
      ensures Fixed() && Core()
    {
      hide LRUCache.Valid, NodeTable.Valid;
    }

    static method TotalOf(configs: seq<TenantConfig<T>>) returns (total: nat)
      ensures total == Capacities(configs)
    {
      total := 0;
      for i := 0 to |configs|
        invariant total == Capacities(configs[..i])
      {
        CapacitiesPrefix(configs, i);
        total := total + configs[i].capacity;
      }
      assert configs[..|configs|] == configs;
    }

    static method NewPool(total: nat) returns (pool: seq<Node<K, Tagged<T, V>>>)
      ensures |pool| == total && Distinct(pool) && forall i :: 0 <= i < total ==> fresh(pool[i])
    {
      pool := [];
      while |pool| < total
        invariant |pool| <= total && Distinct(pool)
        invariant forall i :: 0 <= i < |pool| ==> fresh(pool[i])
      {
        var n := new Node<K, Tagged<T, V>>.Fresh();
        pool := pool + [n];
      }
    }

    /** Caches on one table that own disjoint parts of `repr`. */
    static ghost predicate Together(tenants: map<T, LRUCache<K, Tagged<T, V>>>, caches: set<LRUCache<K, Tagged<T, V>>>,
                                    repr: set<Node<K, Tagged<T, V>>>, table: NodeTable<K, Tagged<T, V>>)
      reads caches, repr, table, table.list, table.nodes
    {
      && (forall t :: t in tenants ==> tenants[t] in caches && tenants[t].table == table && tenants[t].repr <= repr)
      && (forall t, u :: t in tenants && u in tenants && t != u ==> tenants[t].repr !! tenants[u].repr)
      && (forall t :: t in tenants ==> tenants[t].Valid())
    }

    static method AddTenant(ghost tenants: map<T, LRUCache<K, Tagged<T, V>>>,
                            ghost caches: set<LRUCache<K, Tagged<T, V>>>,
                            ghost repr: set<Node<K, Tagged<T, V>>>, table: NodeTable<K, Tagged<T, V>>,
                            tag: T, slice: seq<Node<K, Tagged<T, V>>>)
      returns (c: LRUCache<K, Tagged<T, V>>)
      requires tag !in tenants && Together(tenants, caches, repr, table)
      requires |slice| > 0 && Distinct(slice) && forall i :: 0 <= i < |slice| ==> slice[i] !in repr
      requires table.Valid() && table.contents == map[] && table.nodes == {}
      modifies slice`next, slice`prev, slice`home
      ensures fresh(c) && c.st == Spec.State([], [], slice, [])
      ensures Together(tenants[tag := c], caches + {c}, repr + c.repr, table)
      ensures forall n :: n in c.repr ==> fresh(n) || n in slice
    {
      hide LRUCache.Valid, NodeTable.Valid, Distinct, Together;
      c := new LRUCache<K, Tagged<T, V>>(table);
      c.InitFrom(slice);
      OneMore(tenants, caches, repr, table, tag, c);
    }

    static lemma OneMore(tenants: map<T, LRUCache<K, Tagged<T, V>>>, caches: set<LRUCache<K, Tagged<T, V>>>,
                         repr: set<Node<K, Tagged<T, V>>>, table: NodeTable<K, Tagged<T, V>>,
                         tag: T, c: LRUCache<K, Tagged<T, V>>)
      requires tag !in tenants && Together(tenants, caches, repr, table)
      requires c.Valid() && c.table == table && c.repr !! repr
      ensures Together(tenants[tag := c], caches + {c}, repr + c.repr, table)
    {
      hide LRUCache.Valid;
    }

    static method Build(configs: seq<TenantConfig<T>>, pool: seq<Node<K, Tagged<T, V>>>,
                        table: NodeTable<K, Tagged<T, V>>)
      returns (tenants: map<T, LRUCache<K, Tagged<T, V>>>, ghost caches: set<LRUCache<K, Tagged<T, V>>>,
               ghost repr: set<Node<K, Tagged<T, V>>>, ghost m: Shared.Tenants<T, Node<K, Tagged<T, V>>, K>)
      requires Proper(configs)
      requires |pool| == Capacities(configs) && Distinct(pool)
      requires table.Valid() && table.contents == map[] && table.nodes == {}
      modifies pool`next, pool`prev, pool`home
      ensures Together(tenants, caches, repr, table)
      ensures SetUp(m, configs) && m.Keys == tenants.Keys
      ensures forall t :: t in tenants ==> m[t] == tenants[t].st
    {
      hide Together, NodeTable.Valid, Capacities, SetUp, Proper;
      tenants, caches, repr, m := map[], {}, {}, map[];
      var begin := 0;
      Alone(table);
      NoneYet<T, Node<K, Tagged<T, V>>, K>(configs);
      for i := 0 to |configs|
        invariant begin == Capacities(configs[..i])
        invariant Together(tenants, caches, repr, table)
        invariant SetUp(m, configs[..i]) && m.Keys == tenants.Keys
        invariant forall t :: t in tenants ==> m[t] == tenants[t].st
        invariant forall j :: begin <= j < |pool| ==> pool[j] !in repr
      {
        NextShare(configs, i, m);
        var cfg := configs[i];
        var slice := pool[begin..begin + cfg.capacity];
        var c := AddTenant(tenants, caches, repr, table, cfg.tag, slice);
        NextTenant(m, configs, i, c.st);
        tenants, m := tenants[cfg.tag := c], m[cfg.tag := c.st];
        caches, repr := caches + {c}, repr + c.repr;
        begin := begin + cfg.capacity;
      }
      assert configs[..|configs|] == configs;
    }

    static lemma Alone(table: NodeTable<K, Tagged<T, V>>)
      ensures Together(map[], {}, {}, table)
    {
    }

    ghost predicate Fixed() {
      && (forall t :: t in tenants ==> tenants[t] in caches && tenants[t].table == table)
      && table.hashOf == hash
    }

    /** The tenants' caches own disjoint sets of nodes. */
    ghost predicate Apart()
      requires Fixed()
      reads `repr, caches`repr
    {
      && (forall t :: t in tenants ==> tenants[t].repr <= repr)
      && (forall t, u :: t in tenants && u in tenants && t != u ==> tenants[t].repr !! tenants[u].repr)
    }

    /** Every one of `nodes` belongs to the tenant its tag names. */
    ghost predicate Tags(nodes: set<Node<K, Tagged<T, V>>>)
      requires Fixed()
      reads nodes`value, caches`repr
    {
      forall n :: n in nodes ==> n.value.tag in tenants && n in tenants[n.value.tag].repr
    }

    lemma TagsFewer(nodes: set<Node<K, Tagged<T, V>>>, all: set<Node<K, Tagged<T, V>>>)
      requires Fixed() && Tags(all) && nodes <= all
      ensures Tags(nodes)
    {
    }

    /** What each tenant holds, on values. */
    ghost function State(): (m: Shared.Tenants<T, Node<K, Tagged<T, V>>, K>)
      requires Fixed()
      reads caches`st
      ensures m.Keys == tenants.Keys
    {
      map t | t in tenants :: tenants[t].st
    }

    ghost predicate Each()
      requires Fixed() && Apart()
      reads `repr, repr, caches, table, table.list, table.nodes
    {
      forall t :: t in tenants ==> tenants[t].Valid()
    }

    /** Everything but the bookkeeping of the total capacity. */
    ghost predicate Core()
      reads `repr, repr, caches, table, table.list, table.nodes
    {
      && Fixed()
      && Apart()
      && Tags(table.nodes)
      && table.Valid()
      && Each()
    }

    ghost predicate Sound()
      reads `repr, `totalCapacity, repr, caches, table, table.list, table.nodes
    {
      && Core()
      && totalCapacity == Shared.Total(State())
    }

    /** The history is one of legal operations, and leads to the present state. */
    ghost predicate LeadsTo(m: Shared.Tenants<T, Node<K, Tagged<T, V>>, K>)
      reads `origin, `history
    {
      && Shared.Inv(origin)
      && Shared.SlotsApart(origin)
      && Shared.LegalRun(origin, history)
      && m == Shared.Run(origin, history)
    }

    ghost predicate Valid()
      reads this, repr, caches, table, table.list, table.nodes
    {
      Sound() && LeadsTo(State())
    }

    /** One more operation in the history. */
    ghost method Tell(op: Shared.Op<T, Node<K, Tagged<T, V>>, K>, m: Shared.Tenants<T, Node<K, Tagged<T, V>>, K>)
      requires Fixed() && LeadsTo(m) && Shared.Legal(m, op) && State() == Shared.Step(m, op)
      modifies `history
      ensures LeadsTo(State()) && history == old(history) + [op]
    {
      hide Shared.Legal, Shared.Step, Shared.Inv, Shared.SlotsApart, Shared.LegalRun, Shared.Run;
      Shared.RunConcat(origin, history, [op]);
      Shared.RunOne(m, op);
      history := history + [op];
    }

    // --- keys and their homes ---

    /** The table is the union of what the tenants hold. */
    lemma HeldIff(k: K)
      requires Core()
      ensures Shared.Held(State(), k) <==> k in table.contents
      ensures k in table.contents ==>
                var e := table.contents[k];
                && e in table.nodes && e.key == k && e.value.tag in tenants
                && e in tenants[e.value.tag].repr
                && Shared.Home(State(), k) == e.value.tag
                && Spec.Present(tenants[e.value.tag].st, k)
    {
      hide LRUCache.Valid, NodeTable.Valid, Spec.Present;
      forall t | t in tenants
        ensures Spec.Present(State()[t], k) <==> k in table.contents && table.contents[k] in tenants[t].repr
      {
        tenants[t].AbsentIff(k);
      }
      if k in table.contents {
        table.Holds(k);
        assert Spec.Present(State()[table.contents[k].value.tag], k);
      }
    }

    /** Every reachable state is in order: no key is held by two tenants. */
    lemma InOrder()
      requires Core()
      ensures Shared.Inv(State())
    {
      hide LRUCache.Valid, NodeTable.Valid, Spec.Present, Spec.Inv;
      forall t | t in tenants
        ensures Spec.Inv(State()[t])
      {
        tenants[t].Facts();
      }
      forall t, u, k | t in tenants && u in tenants && Spec.Present(State()[t], k) && Spec.Present(State()[u], k)
        ensures t == u
      {
        tenants[t].AbsentIff(k);
        tenants[u].AbsentIff(k);
      }
    }

    /** No slot is in two places, of one tenant or of two. */
    lemma SlotsInOrder()
      requires Core()
      ensures Shared.SlotsApart(State())
      ensures forall t, n :: t in tenants && n in Lru.AllSlots(State()[t]) ==> n in repr
    {
      hide LRUCache.Valid, NodeTable.Valid, Lru.AllSlots, Lru.SlotsDistinct;
      forall t | t in tenants
        ensures Lru.SlotsDistinct(State()[t])
        ensures forall n :: n in Lru.AllSlots(State()[t]) ==> n in tenants[t].repr
      {
        tenants[t].SlotsOnce();
      }
    }

    // --- one tenant acts, the others do not notice ---

    /** What the other tenants need to be in order, with `m` the table as they knew it. */
    ghost predicate Others(t: T, m: map<K, Node<K, Tagged<T, V>>>)
      requires Fixed() && Apart()
      reads `repr, repr, caches
    {
      forall u :: u in tenants && u != t ==> tenants[u].Own() && Spec.Maps(tenants[u].st, tenants[u].repr, m)
    }

    lemma Open(t: T)
      requires Core() && t in tenants
      ensures Others(t, table.contents)
      ensures forall u :: u in tenants && u != t ==> tenants[u] != tenants[t] && tenants[u].repr !! tenants[t].repr
      ensures tenants[t].Valid() && tenants[t].repr <= repr
      ensures tenants[t].lru in tenants[t].repr && tenants[t].inUse in tenants[t].repr
      ensures tenants[t].free in tenants[t].repr && tenants[t].erased in tenants[t].repr
      ensures table.nodes <= repr
    {
      hide LRUCache.Valid, NodeTable.Valid, LRUCache.Own, Spec.Maps;
      forall u | u in tenants
        ensures tenants[u].Own() && Spec.Maps(tenants[u].st, tenants[u].repr, table.contents)
      {
        tenants[u].Split();
      }
      tenants[t].Facts();
    }

    lemma Close(t: T, mine: set<Node<K, Tagged<T, V>>>, m: map<K, Node<K, Tagged<T, V>>>)
      requires Fixed() && Apart() && Others(t, m)
      requires t in tenants && tenants[t].Valid() && table.Valid()
      requires Spec.AgreeOutside(mine, m, table.contents)
      requires forall u :: u in tenants && u != t ==> tenants[u].repr !! mine
      ensures Each()
    {
      hide LRUCache.Valid, NodeTable.Valid, LRUCache.Own, Spec.Maps, Spec.AgreeOutside;
      forall u | u in tenants && u != t
        ensures tenants[u].Valid()
      {
        tenants[u].Join(mine, m);
      }
    }

    lemma Same(t: T)
      requires Fixed() && Apart() && Others(t, table.contents)
      requires t in tenants && tenants[t].Valid() && table.Valid()
      ensures Each()
    {
      hide LRUCache.Valid, NodeTable.Valid, Others;
      Close(t, {}, table.contents);
    }

    /** Only a swap of equal capacities leaves the total alone. */
    lemma SameTotal(m: Shared.Tenants<T, Node<K, Tagged<T, V>>, K>, t: T)
      requires Fixed() && t in m && t in tenants && State() == m[t := State()[t]]
      requires Spec.Capacity(State()[t]) == Spec.Capacity(m[t])
      ensures Shared.Total(State()) == Shared.Total(m)
    {
      hide Shared.Total, Spec.Capacity;
      Shared.TotalUpdate(m, t, State()[t]);
    }

    // --- the operations ---

    method LookupRefresh(t: T, e: Node<K, Tagged<T, V>>, pin: bool)
      requires Sound() && t in tenants && tenants[t].Live(e)
      modifies caches`st, repr`next, repr`prev, repr`home, repr`refs, repr`members
      ensures Sound() && State() == old(State())[t := Spec.Lookup(old(State())[t], e.key, pin)]
    {
      hide LRUCache.Valid, NodeTable.Valid, LRUCache.Own, Spec.Maps, Spec.Lookup, Spec.Capacity, Shared.Total;
      Open(t);
      Lru.StepCapacity(tenants[t].st, Lru.DoLookup(e.key, pin));
      tenants[t].LookupRefresh(e, pin);
      Same(t);
      assert State() == old(State())[t := tenants[t].st];
      SameTotal(old(State()), t);
    }

    /** The node of a key, wherever it lives. */
    lemma Locate(e: Node<K, Tagged<T, V>>)
      requires Core() && e in table.nodes
      ensures e.value.tag in tenants && tenants[e.value.tag].Live(e)
      ensures Shared.Held(State(), e.key) && Shared.Home(State(), e.key) == e.value.tag
    {
      hide LRUCache.Valid, Each;
      table.Knows(e);
      HeldIff(e.key);
    }

    method LookupImpl(key: K, h: nat, pin: bool) returns (e: Node?<K, Tagged<T, V>>)
      requires Sound() && h == hash(key)
      modifies caches`st, repr`next, repr`prev, repr`home, repr`refs, repr`members
      ensures Sound() && State() == Shared.Lookup(old(State()), key, pin)
      ensures e == if key in table.contents then table.contents[key] else null
      ensures e == null <==> !Shared.Held(old(State()), key)
      ensures e != null ==> e.value.tag == Shared.Home(old(State()), key)
    {
      hide Each, NodeTable.Valid, Spec.Lookup, Spec.Capacity, Shared.Total, Spec.Present, Shared.Held;
      HeldIff(key);
      e := table.Lookup(key, h);
      if e != null {
        Locate(e);
        LookupRefresh(e.value.tag, e, pin);
      }
    }

    /** Gives back a pin, to whichever tenant the node belongs. */
    method ReleaseImpl(e: Node<K, Tagged<T, V>>)
      requires Sound() && e in table.nodes && e.refs > 1
      modifies caches`st, repr`next, repr`prev, repr`home, repr`refs, repr`members
      ensures Sound() && State() == Shared.Release(old(State()), old(e.key))
    {
      hide LRUCache.Valid, NodeTable.Valid, LRUCache.Own, Spec.Maps, Spec.Release, Spec.Capacity, Shared.Total;
      Locate(e);
      var t := e.value.tag;
      Open(t);
      Lru.StepCapacity(tenants[t].st, Lru.DoRelease(e.key));
      tenants[t].Release(e);
      Same(t);
      assert State() == old(State())[t := tenants[t].st];
      SameTotal(old(State()), t);
    }

    method PinImpl(e: Node<K, Tagged<T, V>>)
      requires Sound() && e in table.nodes
      modifies caches`st, repr`next, repr`prev, repr`home, repr`refs, repr`members
      ensures Sound() && State() == Shared.Pin(old(State()), old(e.key))
    {
      hide LRUCache.Valid, NodeTable.Valid, LRUCache.Own, Spec.Maps, Spec.Pin, Spec.Capacity, Shared.Total;
      Locate(e);
      var t := e.value.tag;
      Open(t);
      Lru.StepCapacity(tenants[t].st, Lru.DoPin(e.key));
      tenants[t].Pin(e);
      Same(t);
      assert State() == old(State())[t := tenants[t].st];
      SameTotal(old(State()), t);
    }

    method SetTag(e: Node<K, Tagged<T, V>>, t: T)
      requires Fixed() && Apart() && table.Valid() && Each()
      requires t in tenants && e in tenants[t].repr && Tags(table.nodes - {e})
      modifies e`value
      ensures Apart() && table.Valid() && Each() && Tags(table.nodes) && e.value.tag == t
    {
      hide LRUCache.Valid, NodeTable.Valid;
      e.value := e.value.(tag := t);
    }

    /** The tenant's own insertion, which the others have yet to be told of. */
    method InsertAlone(t: T, key: K, h: nat, pin: bool) returns (e: Node?<K, Tagged<T, V>>)
      requires Core() && t in tenants && h == hash(key) && key !in table.contents && tenants[t].capacity > 0
      modifies caches`st, caches`size, repr`next, repr`prev, repr`home, repr`refs, repr`members
      modifies repr`hash, repr`key, repr`nextHash
      modifies table`chains, table`contents, table`nodes, table.list
      ensures Apart() && tenants[t].Valid() && Others(t, old(table.contents)) && Tags(old(table.nodes))
      ensures tenants[t].st == Spec.Insert(old(tenants[t].st), key, pin)
      ensures forall u :: u in tenants && u != t ==> tenants[u].st == old(tenants[u].st)
      ensures table.contents == Spec.InsertMap(old(tenants[t].st), old(table.contents), key)
      ensures e == if key in table.contents then table.contents[key] else null
      ensures e == null <==> !Spec.Present(old(tenants[t].st), key) && Spec.Full(old(tenants[t].st))
      ensures e != null ==> e in tenants[t].repr
      ensures if e == null then table.nodes == old(table.nodes) else table.nodes <= old(table.nodes) + {e}
    {
      hide LRUCache.Valid, NodeTable.Valid, LRUCache.Own, Spec.Maps, Spec.Insert, Spec.InsertMap, Spec.Present,
           Spec.Full, Each, Tags;
      Open(t);
      e := tenants[t].InsertImpl(key, h, pin, true);
    }

    /** The tenant's own insertion; the new node is still to be tagged. */
    method InsertAt(t: T, key: K, h: nat, pin: bool) returns (e: Node?<K, Tagged<T, V>>)
      requires Core() && t in tenants && h == hash(key) && key !in table.contents && tenants[t].capacity > 0
      modifies caches`st, caches`size, repr`next, repr`prev, repr`home, repr`refs, repr`members
      modifies repr`hash, repr`key, repr`nextHash
      modifies table`chains, table`contents, table`nodes, table.list
      ensures Apart() && table.Valid() && Each()
      ensures Tags(if e == null then table.nodes else table.nodes - {e})
      ensures State() == old(State())[t := Spec.Insert(old(State())[t], key, pin)]
      ensures e == if key in table.contents then table.contents[key] else null
      ensures e == null <==> !Spec.Present(old(State())[t], key) && Spec.Full(old(State())[t])
      ensures e != null ==> e in tenants[t].repr
    {
      hide LRUCache.Valid, NodeTable.Valid, LRUCache.Own, Spec.Maps, Spec.Insert, Spec.InsertMap,
           Spec.AgreeOutside, Spec.Present, Spec.Full, Each, Tags, Others;
      ghost var m, nodes := table.contents, table.nodes;
      Open(t);
      tenants[t].InsertElsewhere(key);
      e := InsertAlone(t, key, h, pin);
      TagsFewer(if e == null then table.nodes else table.nodes - {e}, nodes);
      tenants[t].Split();
      Close(t, tenants[t].repr, m);
      assert State() == old(State())[t := tenants[t].st];
    }

    /** Inserts a key that no tenant holds, and tags its node. */
    method InsertAbsent(t: T, key: K, h: nat, pin: bool) returns (e: Node?<K, Tagged<T, V>>)
      requires Sound() && t in tenants && h == hash(key) && key !in table.contents && tenants[t].capacity > 0
      modifies caches`st, caches`size, repr`next, repr`prev, repr`home, repr`refs, repr`members
      modifies repr`hash, repr`key, repr`nextHash, repr`value
      modifies table`chains, table`contents, table`nodes, table.list
      ensures Sound() && State() == old(State())[t := Spec.Insert(old(State())[t], key, pin)]
      ensures e == if key in table.contents then table.contents[key] else null
      ensures e == null <==> Spec.Full(old(State())[t])
      ensures e != null ==> e.value.tag == t
    {
      hide NodeTable.Valid, Spec.Insert, Spec.Capacity, Spec.Present, Spec.Full, Shared.Total, Each, Tags;
      HeldIff(key);
      Lru.StepCapacity(tenants[t].st, Lru.DoInsert(key, pin));
      e := InsertAt(t, key, h, pin);
      SameTotal(old(State()), t);
      if e != null {
        SetTag(e, t);
      }
    }

    /** The node of `key` at tenant `t`, or wherever else it already is. */
    method InsertImpl(t: T, key: K, pin: bool, hintNonexist: bool) returns (e: Node?<K, Tagged<T, V>>)
      requires Sound() && t in tenants
      requires Shared.Held(State(), key) || Spec.Capacity(State()[t]) > 0
      requires hintNonexist ==> !Shared.Held(State(), key)
      modifies caches`st, caches`size, repr`next, repr`prev, repr`home, repr`refs, repr`members
      modifies repr`hash, repr`key, repr`nextHash, repr`value
      modifies table`chains, table`contents, table`nodes, table.list
      ensures Sound() && State() == Shared.Insert(old(State()), t, key, pin)
      ensures e == if key in table.contents then table.contents[key] else null
      ensures e == null <==> !Shared.Held(old(State()), key) && Spec.Full(old(State())[t])
      ensures e != null ==>
                e.value.tag == if Shared.Held(old(State()), key) then Shared.Home(old(State()), key) else t
    {
      hide NodeTable.Valid, LRUCache.Valid, Core, Shared.Held, Spec.Insert, Spec.Lookup, Spec.Full, Spec.Capacity,
           Shared.Total;
      var h := hash(key);
      HeldIff(key);
      if !hintNonexist {
        e := LookupImpl(key, h, pin);
        if e != null {
          return;
        }
        HeldIff(key);
      }
      CapacityIs(t);
      e := InsertAbsent(t, key, h, pin);
    }

    lemma CapacityIs(t: T)
      requires Core() && t in tenants
      ensures tenants[t].capacity == Spec.Capacity(State()[t]) && tenants[t].size == Spec.Size(State()[t])
      ensures tenants[t].size <= tenants[t].capacity
    {
      hide NodeTable.Valid, LRUCache.Valid;
      tenants[t].Facts();
    }

    method CapacityOf(t: T) returns (n: nat)
      requires Valid() && t in tenants
      ensures n == Spec.Capacity(State()[t])
    {
      CapacityIs(t);
      hide Valid, LRUCache.Valid;
      n := tenants[t].capacity;
    }

    method SizeOf(t: T) returns (n: nat)
      requires Valid() && t in tenants
      ensures n == Spec.Size(State()[t]) <= Spec.Capacity(State()[t])
    {
      CapacityIs(t);
      hide Valid, LRUCache.Valid;
      n := tenants[t].size;
    }

    /** Takes an unpinned node out of circulation, for its tenant and in total. */
    method EraseImpl(e: Node<K, Tagged<T, V>>) returns (ok: bool)
      requires Sound() && e in table.nodes
      modifies `totalCapacity, caches`st, caches`size, caches`capacity
      modifies repr`next, repr`prev, repr`home, repr`refs, repr`members, repr`nextHash
      modifies table`chains, table`contents, table`nodes, table.list
      ensures Sound() && State() == Shared.Erase(old(State()), old(e.key))
      ensures ok <==> Spec.Idle(old(State())[old(e.value.tag)], old(e.key))
      ensures totalCapacity == old(totalCapacity) - if ok then 1 else 0
    {
      hide NodeTable.Valid, Each, Tags, Apart, Spec.Erase, Spec.Idle, Spec.Capacity, Shared.Total;
      Locate(e);
      var t := e.value.tag;
      Lru.StepCapacity(tenants[t].st, Lru.DoErase(e.key));
      ok := EraseAt(t, e);
      Shared.TotalUpdate(old(State()), t, tenants[t].st);
      if ok {
        totalCapacity := totalCapacity - 1;
      }
    }

    method EraseAt(t: T, e: Node<K, Tagged<T, V>>) returns (ok: bool)
      requires Core() && t in tenants && tenants[t].Live(e)
      modifies caches`st, caches`size, caches`capacity
      modifies repr`next, repr`prev, repr`home, repr`refs, repr`members, repr`nextHash
      modifies table`chains, table`contents, table`nodes, table.list
      ensures Core() && State() == old(State())[t := Spec.Erase(old(State())[t], old(e.key))]
      ensures ok <==> Spec.Idle(old(State())[t], old(e.key))
    {
      hide LRUCache.Valid, NodeTable.Valid, LRUCache.Own, Spec.Maps, Spec.Erase, Spec.AgreeOutside, Spec.Idle,
           Each, Tags;
      Open(t);
      tenants[t].EraseElsewhere(e);
      ghost var m, nodes := table.contents, table.nodes;
      ok := tenants[t].Erase(e);
      TagsFewer(table.nodes, nodes);
      tenants[t].Split();
      SameAgrees(tenants[t].repr, m);
      Close(t, tenants[t].repr, m);
      assert State() == old(State())[t := tenants[t].st];
    }

    lemma SameAgrees(mine: set<Node<K, Tagged<T, V>>>, m: map<K, Node<K, Tagged<T, V>>>)
      ensures Spec.AgreeOutside(mine, m, m)
    {
    }

    lemma AddAgrees(mine: set<Node<K, Tagged<T, V>>>, m: map<K, Node<K, Tagged<T, V>>>,
                    k: K, e: Node<K, Tagged<T, V>>)
      requires k !in m && e in mine
      ensures Spec.AgreeOutside(mine, m, m[k := e])
    {
    }

    /** Adds a cache slot to tenant `t`, and puts a new key in it. */
    method InstallImpl(t: T, key: K) returns (e: Node<K, Tagged<T, V>>)
      requires Sound() && t in tenants && !Shared.Held(State(), key)
      modifies `totalCapacity, `repr, caches`st, caches`size, caches`capacity, caches`repr
      modifies repr`next, repr`prev, repr`home, repr`refs, repr`members, repr`hash, repr`key, repr`nextHash, repr`value
      modifies table`chains, table`contents, table`nodes, table.list
      ensures Sound() && State() == Shared.Install(old(State()), t, key, e)
      ensures old(State())[t].erased == [] ==> Shared.Unowned(old(State()), e)
      ensures totalCapacity == old(totalCapacity) + 1
      ensures key in table.contents && table.contents[key] == e && e.value.tag == t
    {
      hide NodeTable.Valid, LRUCache.Valid, Each, Tags, Apart, Spec.Install, Spec.Present, Spec.Capacity, Shared.Total,
           Lru.AllSlots, Shared.Unowned, Shared.SlotsApart;
      HeldIff(key);
      SlotsInOrder();
      ghost var m, nodes := State(), repr;
      e := InstallAt(t, key, hash(key));
      Outside(m, nodes, e);
      Lru.StepCapacity(old(State())[t], Lru.DoInstall(key, e));
      Shared.TotalUpdate(old(State()), t, tenants[t].st);
      SetTag(e, t);
      totalCapacity := totalCapacity + 1;
    }

    /** A node from elsewhere is a slot of no tenant. */
    static lemma Outside(m: Shared.Tenants<T, Node<K, Tagged<T, V>>, K>, nodes: set<Node<K, Tagged<T, V>>>,
                         e: Node<K, Tagged<T, V>>)
      requires forall t, n :: t in m && n in Lru.AllSlots(m[t]) ==> n in nodes
      ensures e !in nodes ==> Shared.Unowned(m, e)
    {
      hide Lru.AllSlots;
    }

    method InstallAt(t: T, key: K, h: nat) returns (e: Node<K, Tagged<T, V>>)
      requires Core() && t in tenants && key !in table.contents && h == hash(key)
      modifies `repr, caches`st, caches`size, caches`capacity, caches`repr
      modifies repr`next, repr`prev, repr`home, repr`refs, repr`members, repr`hash, repr`key, repr`nextHash
      modifies table`chains, table`contents, table`nodes, table.list
      ensures Apart() && table.Valid() && Each() && Tags(table.nodes - {e})
      ensures State() == old(State())[t := Spec.Install(old(State())[t], key, e)]
      ensures e in tenants[t].repr && repr == old(repr) + {e}
      ensures if old(State())[t].erased == [] then fresh(e) else e in old(repr)
      ensures key in table.contents && table.contents[key] == e
    {
      hide LRUCache.Valid, NodeTable.Valid, LRUCache.Own, Spec.Maps, Spec.Install, Spec.AgreeOutside, Each, Tags, Apart;
      ghost var m, nodes := table.contents, table.nodes;
      e := InstallAlone(t, key, h);
      assert State() == old(State())[t := tenants[t].st];
      tenants[t].Split();
      AddAgrees(tenants[t].repr, m, key, e);
      TagsFewer(table.nodes - {e}, nodes);
      Beside(t);
      Close(t, tenants[t].repr, m);
    }

    lemma Beside(t: T)
      requires Fixed() && Apart() && t in tenants
      ensures forall u :: u in tenants && u != t ==> tenants[u].repr !! tenants[t].repr
    {
    }

    /** What another tenant owns is in `repr`. */
    lemma NobodyElses(t: T)
      requires Fixed() && Apart()
      ensures forall u :: u in tenants ==> tenants[u].repr <= repr
    {
    }

    /** Tenant `t` came to own `e`, and nothing else changed hands. */
    twostate lemma Grown(t: T, new e: Node<K, Tagged<T, V>>)
      requires Fixed() && old(Apart()) && old(Tags(table.nodes)) && t in tenants
      requires forall u :: u in tenants && u != t ==> tenants[u].repr == old(tenants[u].repr) && e !in tenants[u].repr
      requires tenants[t].repr == old(tenants[t].repr) + {e} && repr == old(repr) + {e}
      requires forall n :: n in old(table.nodes) ==> n.value == old(n.value)
      ensures Apart() && Tags(old(table.nodes))
    {
    }

    /** The tenant's own installation, which the others have yet to be told of. */
    method InstallAlone(t: T, key: K, h: nat) returns (e: Node<K, Tagged<T, V>>)
      requires Core() && t in tenants && key !in table.contents && h == hash(key)
      modifies `repr, caches`st, caches`size, caches`capacity, caches`repr
      modifies repr`next, repr`prev, repr`home, repr`refs, repr`members, repr`hash, repr`key, repr`nextHash
      modifies table`chains, table`contents, table`nodes, table.list
      ensures Apart() && tenants[t].Valid() && Others(t, old(table.contents)) && Tags(old(table.nodes))
      ensures tenants[t].st == Spec.Install(old(tenants[t].st), key, e)
      ensures forall u :: u in tenants && u != t ==> tenants[u].st == old(tenants[u].st)
      ensures e in tenants[t].repr && repr == old(repr) + {e}
      ensures if old(tenants[t].st).erased == [] then fresh(e) else e in old(repr)
      ensures table.contents == old(table.contents)[key := e] && table.nodes == old(table.nodes) + {e}
    {
      hide LRUCache.Valid, NodeTable.Valid, LRUCache.Own, Spec.Maps, Spec.Install, Each, Tags, Apart;
      Open(t);
      NobodyElses(t);
      e := tenants[t].InstallImpl(key, h);
      repr := repr + {e};
      Grown(t, e);
    }

    // --- relocation ---

    /** The tenant gives a slot away, which the others have yet to be told of. */
    method GiveAlone(t: T) returns (e: Node?<K, Tagged<T, V>>)
      requires Core() && t in tenants
      modifies caches`st, caches`size, caches`capacity, caches`repr
      modifies repr`next, repr`prev, repr`members, repr`nextHash
      modifies table`chains, table`contents, table`nodes, table.list
      ensures Apart() && tenants[t].Valid() && Others(t, old(table.contents)) && Tags(table.nodes)
      ensures tenants[t].st == Spec.Preempt(old(tenants[t].st))
      ensures forall u :: u in tenants && u != t ==> tenants[u].st == old(tenants[u].st)
      ensures forall u :: u in tenants && u != t ==> tenants[u].repr !! old(tenants[t].repr)
      ensures e == null <==> Spec.Full(old(tenants[t].st))
      ensures e == null ==> table.contents == old(table.contents)
      ensures e != null ==> e == Spec.NextSlot(old(tenants[t].st)) && e in old(tenants[t].repr) && e in repr
      ensures e != null ==> e !in tenants[t].repr && e !in table.nodes
      ensures e != null ==> table.contents == Spec.AllocMap(old(tenants[t].st), old(table.contents))
    {
      hide LRUCache.Valid, NodeTable.Valid, LRUCache.Own, Spec.Maps, Spec.Preempt, Spec.Full, Spec.NextSlot,
           Spec.AllocMap, Each;
      Open(t);
      e := tenants[t].Preempt();
    }

    /** One slot leaves tenant `t`, and with it, if the slot was in use, the oldest unpinned key. */
    method GiveSlot(t: T) returns (e: Node?<K, Tagged<T, V>>)
      requires Core() && t in tenants
      modifies caches`st, caches`size, caches`capacity, caches`repr
      modifies repr`next, repr`prev, repr`members, repr`nextHash
      modifies table`chains, table`contents, table`nodes, table.list
      ensures Core() && State() == old(State())[t := Spec.Preempt(old(State())[t])]
      ensures e == null <==> Spec.Full(old(State())[t])
      ensures e != null ==> e == Spec.NextSlot(old(State())[t]) && e in repr && e !in table.nodes
      ensures e != null ==> forall u :: u in tenants ==> e !in tenants[u].repr
    {
      hide LRUCache.Valid, NodeTable.Valid, LRUCache.Own, Spec.Maps, Spec.Preempt, Spec.Full, Spec.NextSlot,
           Spec.AllocMap, Spec.AgreeOutside, Each, Tags, Apart, Others;
      ghost var m, mine := table.contents, tenants[t].repr;
      Open(t);
      SameAgrees(mine, m);
      if !Spec.Full(tenants[t].st) {
        tenants[t].AllocElsewhere();
      }
      e := GiveAlone(t);
      tenants[t].Split();
      Close(t, mine, m);
      assert State() == old(State())[t := tenants[t].st];
    }

    /** A slot that nobody owns becomes a free one of tenant `t`. */
    method TakeSlot(t: T, e: Node<K, Tagged<T, V>>)
      requires Core() && t in tenants && e in repr && e !in table.nodes
      requires forall u :: u in tenants ==> e !in tenants[u].repr
      modifies caches`st, caches`capacity, caches`repr, repr`next, repr`prev, repr`home, repr`members
      ensures Core() && State() == old(State())[t := Spec.Assign(old(State())[t], e)]
    {
      hide LRUCache.Valid, NodeTable.Valid, LRUCache.Own, Spec.Maps, Spec.Assign, Each;
      Open(t);
      tenants[t].Assign(e);
      Same(t);
      assert State() == old(State())[t := tenants[t].st];
    }

    method Move(src: T, dst: T) returns (moved: bool)
      requires Sound() && src in tenants && dst in tenants
      modifies caches`st, caches`size, caches`capacity, caches`repr
      modifies repr`next, repr`prev, repr`home, repr`members, repr`nextHash
      modifies table`chains, table`contents, table`nodes, table.list
      ensures Sound() && State() == Shared.Move(old(State()), src, dst)
      ensures moved <==> !Spec.Full(old(State())[src])
    {
      hide NodeTable.Valid, Each, Tags, Apart, Spec.Preempt, Spec.Full, Spec.NextSlot, Spec.Assign, Shared.Total;
      var e := GiveSlot(src);
      if e == null {
        FullGivesNothing(old(State()), src);
        return false;
      }
      TakeSlot(dst, e);
      Shared.MoveTotal(old(State()), src, dst);
      return true;
    }

    lemma FullGivesNothing(m: Shared.Tenants<T, Node<K, Tagged<T, V>>, K>, t: T)
      requires t in m && Spec.Full(m[t])
      ensures m[t := Spec.Preempt(m[t])] == m
    {
    }

    /** Moves up to `size` slots from `src` to `dst`, and returns how many it could move. */
    method RelocateImpl(src: T, dst: T, size: nat) returns (n: nat)
      requires Sound() && src in tenants && dst in tenants
      modifies caches`st, caches`size, caches`capacity, caches`repr
      modifies repr`next, repr`prev, repr`home, repr`members, repr`nextHash
      modifies table`chains, table`contents, table`nodes, table.list
      ensures Sound() && State() == Shared.Relocate(old(State()), src, dst, size)
      ensures n == Shared.Relocated(old(State()), src, dst, size)
    {
      hide NodeTable.Valid, Each, Tags, Apart, Spec.Full, Shared.Move, Shared.Relocate, Shared.Relocated, Shared.Total;
      ghost var m := State();
      Shared.RelocateNone(m, src, dst);
      n := 0;
      while n < size
        invariant n <= size && Fixed() && Sound()
        invariant State() == Shared.Relocate(m, src, dst, n) && n == Shared.Relocated(m, src, dst, n)
        decreases size - n
      {
        Shared.RelocateStep(m, src, dst, n + 1);
        var moved := Move(src, dst);
        if !moved {
          Shared.RelocateStuck(m, src, dst, n, size);
          return;
        }
        n := n + 1;
      }
    }

    // --- the same operations, with their history ---

    lemma OpenValid()
      requires Valid()
      ensures Fixed() && Core() && Sound() && LeadsTo(State())
    {
    }

    lemma CloseValid()
      requires Sound()
      ensures Fixed() && (LeadsTo(State()) ==> Valid())
    {
    }

    method Lookup(key: K, pin: bool) returns (e: Node?<K, Tagged<T, V>>)
      requires Valid()
      modifies `history, caches`st, repr`next, repr`prev, repr`home, repr`refs, repr`members
      ensures Valid() && State() == Shared.Lookup(old(State()), key, pin)
      ensures history == old(history) + [Shared.DoLookup(key, pin)]
      ensures e == if key in table.contents then table.contents[key] else null
      ensures e == null <==> !Shared.Held(old(State()), key)
    {
      hide *;
      OpenValid();
      ghost var m := State();
      Shared.LookupOp(m, key, pin);
      e := LookupImpl(key, hash(key), pin);
      Tell(Shared.DoLookup(key, pin), m);
      CloseValid();
    }

    method Release(e: Node<K, Tagged<T, V>>)
      requires Valid() && e in table.nodes && e.refs > 1
      modifies `history, caches`st, repr`next, repr`prev, repr`home, repr`refs, repr`members
      ensures Valid() && State() == Shared.Release(old(State()), old(e.key))
      ensures history == old(history) + [Shared.DoRelease(old(e.key))]
    {
      hide *;
      OpenValid();
      Releasable(e);
      ghost var m, key := State(), e.key;
      Shared.ReleaseOp(m, key);
      ReleaseImpl(e);
      Tell(Shared.DoRelease(key), m);
      CloseValid();
    }

    /** A node with more than one reference is pinned. */
    lemma Releasable(e: Node<K, Tagged<T, V>>)
      requires Core() && e in table.nodes
      ensures Shared.Held(State(), e.key)
      ensures e.refs > 1 ==> Spec.Pinned(State()[Shared.Home(State(), e.key)], e.key)
    {
      hide NodeTable.Valid, LRUCache.Inv;
      Locate(e);
      tenants[e.value.tag].Locate(e);
    }

    method Pin(e: Node<K, Tagged<T, V>>)
      requires Valid() && e in table.nodes
      modifies `history, caches`st, repr`next, repr`prev, repr`home, repr`refs, repr`members
      ensures Valid() && State() == Shared.Pin(old(State()), old(e.key))
      ensures history == old(history) + [Shared.DoPin(old(e.key))]
    {
      hide *;
      OpenValid();
      Releasable(e);
      ghost var m, key := State(), e.key;
      Shared.PinOp(m, key);
      PinImpl(e);
      Tell(Shared.DoPin(key), m);
      CloseValid();
    }

    method Insert(t: T, key: K, pin: bool, hintNonexist: bool) returns (e: Node?<K, Tagged<T, V>>)
      requires Valid() && t in tenants
      requires Shared.Held(State(), key) || Spec.Capacity(State()[t]) > 0
      requires hintNonexist ==> !Shared.Held(State(), key)
      modifies `history, caches`st, caches`size, repr`next, repr`prev, repr`home, repr`refs, repr`members
      modifies repr`hash, repr`key, repr`nextHash, repr`value
      modifies table`chains, table`contents, table`nodes, table.list
      ensures Valid() && State() == Shared.Insert(old(State()), t, key, pin)
      ensures history == old(history) + [Shared.DoInsert(t, key, pin)]
      ensures e == if key in table.contents then table.contents[key] else null
      ensures e == null <==> !Shared.Held(old(State()), key) && Spec.Full(old(State())[t])
      ensures e != null ==>
                e.value.tag == if Shared.Held(old(State()), key) then Shared.Home(old(State()), key) else t
    {
      hide *;
      OpenValid();
      ghost var m := State();
      Shared.InsertOp(m, t, key, pin);
      e := InsertImpl(t, key, pin, hintNonexist);
      Tell(Shared.DoInsert(t, key, pin), m);
      CloseValid();
    }

    method Erase(e: Node<K, Tagged<T, V>>) returns (ok: bool)
      requires Valid() && e in table.nodes
      modifies `history, `totalCapacity, caches`st, caches`size, caches`capacity
      modifies repr`next, repr`prev, repr`home, repr`refs, repr`members, repr`nextHash
      modifies table`chains, table`contents, table`nodes, table.list
      ensures Valid() && State() == Shared.Erase(old(State()), old(e.key))
      ensures history == old(history) + [Shared.DoErase(old(e.key))]
      ensures ok <==> Spec.Idle(old(State())[old(e.value.tag)], old(e.key))
      ensures totalCapacity == old(totalCapacity) - if ok then 1 else 0
    {
      hide *;
      OpenValid();
      Releasable(e);
      ghost var m, key := State(), e.key;
      Shared.EraseOp(m, key);
      ok := EraseImpl(e);
      Tell(Shared.DoErase(key), m);
      CloseValid();
    }

    method Install(t: T, key: K) returns (e: Node<K, Tagged<T, V>>)
      requires Valid() && t in tenants && !Shared.Held(State(), key)
      modifies `history, `totalCapacity, `repr, caches`st, caches`size, caches`capacity, caches`repr
      modifies repr`next, repr`prev, repr`home, repr`refs, repr`members, repr`hash, repr`key, repr`nextHash, repr`value
      modifies table`chains, table`contents, table`nodes, table.list
      ensures Valid() && State() == Shared.Install(old(State()), t, key, e)
      ensures history == old(history) + [Shared.DoInstall(t, key, e)]
      ensures totalCapacity == old(totalCapacity) + 1
      ensures key in table.contents && table.contents[key] == e && e.value.tag == t
    {
      hide *;
      OpenValid();
      ghost var m := State();
      e := InstallImpl(t, key);
      Shared.InstallOp(m, t, key, e);
      Tell(Shared.DoInstall(t, key, e), m);
      CloseValid();
    }

    method Relocate(src: T, dst: T, size: nat) returns (n: nat)
      requires Valid() && src in tenants && dst in tenants
      modifies `history, caches`st, caches`size, caches`capacity, caches`repr
      modifies repr`next, repr`prev, repr`home, repr`members, repr`nextHash
      modifies table`chains, table`contents, table`nodes, table.list
      ensures Valid() && State() == Shared.Relocate(old(State()), src, dst, size)
      ensures history == old(history) + [Shared.DoRelocate(src, dst, size)]
      ensures n == Shared.Relocated(old(State()), src, dst, size)
    {
      hide *;
      OpenValid();
      ghost var m := State();
      Shared.RelocateOp(m, src, dst, size);
      n := RelocateImpl(src, dst, size);
      Tell(Shared.DoRelocate(src, dst, size), m);
      CloseValid();
    }

    /**
     * From any point of the history on at which a tenant has pinned a key: if its pins have never
     * balanced to zero since, the table still leads from the key to the same node, still tagged
     * with that tenant and with one reference more than its users have pins.
     */
    lemma HandleStays(before: seq<Shared.Op<T, Node<K, Tagged<T, V>>, K>>,
                      since: seq<Shared.Op<T, Node<K, Tagged<T, V>>, K>>, t: T, k: K)
      requires Valid() && history == before + since && Shared.LegalRun(origin, before)
      requires var m := Shared.Run(origin, before);
               t in m && Spec.Pinned(m[t], k) && Shared.NeverReleased(since, k, Lru.Pins(m[t], k))
      ensures k in table.contents
      ensures var m := Shared.Run(origin, before);
              var e := table.contents[k];
              && e == Lru.HeldSlot(m[t], k) && e.key == k && e.value.tag == t
              && e.refs == Shared.Ledger(since, k, Lru.Pins(m[t], k)) + 1
    {
      OpenValid();
      hide Valid, Sound, Core, Lru.Pins, Lru.HeldSlot, Spec.Pinned, Shared.Run, Shared.LegalRun, Shared.Inv,
           Shared.SlotsApart, Shared.Ledger, Shared.NeverReleased;
      Shared.RunConcat(origin, before, since);
      var m := Shared.Run(origin, before);
      Shared.RunKeeps(origin, before);
      Shared.PinnedKeyStays(m, since, t, k);
      PinnedNode(t, k);
    }

    lemma PinnedNode(t: T, k: K)
      requires Core() && t in tenants && Spec.Pinned(State()[t], k)
      ensures k in table.contents
      ensures var e := table.contents[k];
              && e == Lru.HeldSlot(State()[t], k) && e.key == k && e.value.tag == t
              && e.refs == Lru.Pins(State()[t], k) + 1
    {
      hide NodeTable.Valid, LRUCache.Inv, Lru.Pins, Lru.HeldSlot, Spec.Pinned;
      InOrder();
      Shared.HomeOfPinned(State(), t, k);
      HeldIff(k);
      tenants[t].PinnedHandle(k);
    }
  }

  /** Every tenant is given something, and none is listed twice. */
  ghost predicate Proper<T>(configs: seq<TenantConfig<T>>) {
    && (forall i :: 0 <= i < |configs| ==> configs[i].capacity > 0)
    && (forall i, j :: 0 <= i < j < |configs| ==> configs[i].tag != configs[j].tag)
  }

  /** The tenant is there, empty, and has its configured capacity. */
  ghost predicate Starts<T, S, K>(m: Shared.Tenants<T, S, K>, cfg: TenantConfig<T>) {
    cfg.tag in m && m[cfg.tag].lru == m[cfg.tag].inUse == [] && |m[cfg.tag].free| == cfg.capacity
  }

  /** The tenants are those configured, each as it starts, and share the configured total. */
  ghost predicate SetUp<T, S, K>(m: Shared.Tenants<T, S, K>, configs: seq<TenantConfig<T>>) {
    && Shared.Total(m) == Capacities(configs)
    && (forall t :: t in m ==> exists i :: 0 <= i < |configs| && configs[i].tag == t)
    && (forall i :: 0 <= i < |configs| ==> Starts(m, configs[i]))
  }

  lemma NoneYet<T, S, K>(configs: seq<TenantConfig<T>>)
    ensures SetUp<T, S, K>(map[], configs[..0]) && Capacities(configs[..0]) == 0
  {
  }

  /** The next tenant is a new one, and its share still fits the pool. */
  lemma NextShare<T, S, K>(configs: seq<TenantConfig<T>>, i: nat, m: Shared.Tenants<T, S, K>)
    requires i < |configs| && Proper(configs) && SetUp(m, configs[..i])
    ensures configs[i].capacity > 0 && configs[i].tag !in m
    ensures Capacities(configs[..i + 1]) == Capacities(configs[..i]) + configs[i].capacity <= Capacities(configs)
  {
    hide Shared.Total, Capacities, Starts;
    CapacitiesPrefix(configs, i);
    CapacitiesPrefix(configs, i + 1);
    forall t | t in m
      ensures t != configs[i].tag
    {
      var j :| 0 <= j < i && configs[..i][j].tag == t;
    }
  }

  lemma NextTenant<T, S, K>(m: Shared.Tenants<T, S, K>, configs: seq<TenantConfig<T>>, i: nat, st: Spec.State<S, K>)
    requires i < |configs| && Proper(configs) && SetUp(m, configs[..i]) && configs[i].tag !in m
    requires st.lru == st.inUse == [] && |st.free| == configs[i].capacity
    ensures SetUp(m[configs[i].tag := st], configs[..i + 1])
  {
    hide Shared.Total, Capacities;
    var cfg, more := configs[i], configs[..i + 1];
    var r := m[cfg.tag := st];
    CapacitiesPrefix(configs, i);
    Shared.TotalAt(r, cfg.tag);
    assert r - {cfg.tag} == m;
    assert more[i] == cfg && forall j :: 0 <= j < i ==> more[j] == configs[..i][j];
    forall t | t in r
      ensures exists j :: 0 <= j < |more| && more[j].tag == t
    {
      if t != cfg.tag {
        var j :| 0 <= j < i && configs[..i][j].tag == t;
        assert more[j].tag == t;
      }
    }
    forall j | 0 <= j < |more|
      ensures Starts(r, more[j])
    {
      if j < i {
        assert Starts(m, configs[..i][j]);
      }
    }
  }
}
