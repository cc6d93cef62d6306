/** The ghost cache: one LRU list whose nodes carry the index of the smallest cache that holds them. */
module GhostCache {
  import opened Seqs
  import opened Words
  import opened Buckets
  import opened Nodes
  import opened LruCache
  import opened GhostSpec
  import opened Distances
  import opened LazyStats
  import Plain = PlainLru
  import Refines = LruRefines
  import SamplingSpec
  import Spec = LruSpec

  /** The metadata of a node; `kvSize` is used by the key-value variant only. */
  datatype Meta = Meta(sizeIdx: nat, kvSize: nat)

  type GNode = Node<Block, Meta>

  /** The boundary of the `i`-th simulated cache: its oldest node, null while it is not full. */
  ghost function BoundaryAt(c: Config, l: seq<GNode>, i: nat): Node?<Block, Meta>
    requires c.minSize > 0
  {
    if SizeOf(c, i) <= |l| then At(l, SizeOf(c, i) - 1) else null
  }

  lemma BoundaryAdvances(c: Config, l: seq<GNode>, l': seq<GNode>, reach: nat, i: nat)
    requires c.minSize > 0 && c.tick > 0 && Pushed(l, l', reach) && i < Bucket(c, reach)
    ensures 0 < SizeOf(c, i) <= reach < |l'|
    ensures BoundaryAt(c, l, i) == At(l', SizeOf(c, i)) && BoundaryAt(c, l', i) == At(l', SizeOf(c, i) - 1)
  {
    BucketIsLeast(c, reach);
    assert At(l', SizeOf(c, i)) == At(l, SizeOf(c, i) - 1);
  }

  lemma BoundaryStays(c: Config, l: seq<GNode>, l': seq<GNode>, reach: nat, i: nat)
    requires c.minSize > 0 && c.tick > 0 && Pushed(l, l', reach) && SizeOf(c, i) > reach + 1
    ensures BoundaryAt(c, l', i) == BoundaryAt(c, l, i)
  {
    if SizeOf(c, i) <= |l'| {
      assert At(l', SizeOf(c, i) - 1) == At(l, SizeOf(c, i) - 1);
    }
  }

  lemma FarBoundary(c: Config, reach: nat, i: nat)
    requires c.tick > 0 && i > Bucket(c, reach)
    ensures SizeOf(c, i) > reach + 1
  {
    BucketIsLeast(c, reach);
    SizeOfMonotone(c, Bucket(c, reach), i);
  }

  /** After a hit, the class of the accessed key has a new boundary iff the key was on it. */
  lemma HitBoundary(c: Config, l: seq<GNode>, l': seq<GNode>, reach: nat)
    requires c.minSize > 1 && c.tick > 0 && Pushed(l, l', reach) && Distinct(l) && reach < |l|
    ensures var i := Bucket(c, reach);
            BoundaryAt(c, l', i) == if BoundaryAt(c, l, i) != At(l, reach) then BoundaryAt(c, l, i)
                                    else if reach > 0 then At(l, reach - 1) else At(l, reach)
  {
    var i := Bucket(c, reach);
    BucketIsLeast(c, reach);
    if SizeOf(c, i) > reach + 1 {
      BoundaryStays(c, l, l', reach, i);
    } else {
      assert At(l', reach) == At(l, reach - 1);
    }
  }

  /** After an insertion, the last class has a boundary iff the list just filled it. */
  lemma MissBoundary(c: Config, l: seq<GNode>, l': seq<GNode>, reach: nat)
    requires c.minSize > 1 && c.tick > 0 && Pushed(l, l', reach) && reach + 1 == |l'|
    ensures var i := Bucket(c, reach);
            && (|l'| == SizeOf(c, i) ==> BoundaryAt(c, l', i) == l'[0])
            && (|l'| != SizeOf(c, i) ==> BoundaryAt(c, l', i) == null == BoundaryAt(c, l, i))
  {
    BucketIsLeast(c, reach);
  }

  class GhostCache {
    const c: Config
    const numTicks: nat
    const cache: LRUCache<Block, Meta>
    ghost const hashOf: Block -> nat
    const boundaries: array<Node?<Block, Meta>>
    const cachesStat: array<Stat>
    const reuseDistances: array<nat>
    var reuseCount: nat
    /** What the ghost cache stands for. */
    ghost var g: Ghost
    /** Everything that was ever done to it. */
    ghost var history: seq<Event>

    ghost function Slots(): seq<GNode>
      reads cache`st
    {
      SlotsOf(cache.st.lru)
    }

    ghost predicate Fixed() {
      && ValidConfig(c)
      && numTicks == NumTicks(c)
      && boundaries.Length == numTicks - 1
      && cachesStat.Length == numTicks
      && reuseDistances.Length == numTicks
      && boundaries != cache.table.list
      && cache.table.hashOf == hashOf
    }

    /** The LRU cache underneath holds no pins and owns its whole table. */
    ghost predicate Cached()
      reads cache, cache.table, cache.table.list
      reads cache.repr`next, cache.repr`prev, cache.repr`home, cache.repr`members, cache.repr`refs, cache.repr`key
      reads cache.table.nodes`nextHash, cache.table.nodes`key, cache.table.nodes`hash
    {
      && cache.Valid()
      && cache.table.nodes <= cache.repr
      && cache.st.inUse == []
      && Spec.Capacity(cache.st) == c.maxSize
    }

    ghost predicate Bounded(l: seq<GNode>)
      requires Fixed()
      reads boundaries
    {
      forall i :: 0 <= i < numTicks - 1 ==> boundaries[i] == BoundaryAt(c, l, i)
    }

    ghost predicate Classed(l: seq<GNode>)
      requires Fixed()
      reads l`value
    {
      forall d {:trigger At(l, d)} :: 0 <= d < |l| ==> At(l, d).value.sizeIdx == Bucket(c, d)
    }

    /** The stored histogram is the true one, wrapped to 32 bits. */
    ghost predicate Histogram(hist: seq<nat>)
      reads reuseDistances
    {
      && reuseDistances.Length == |hist|
      && forall i :: 0 <= i < |hist| ==> reuseDistances[i] == W32(hist[i])
    }

    ghost predicate Counted()
      reads `g, `reuseCount, reuseDistances, cachesStat
    {
      && Inv(c, g)
      && Histogram(g.hist)
      && reuseCount == W32(g.count)
      && cachesStat[..] == g.stats
    }

    ghost predicate Told()
      requires Fixed()
      reads `g, `history
    {
      g == Run(c, history)
    }

    ghost predicate Valid()
      reads this, boundaries, reuseDistances, cachesStat
      reads cache, cache.repr, cache.table, cache.table.list, cache.table.nodes
    {
      && Fixed()
      && Cached()
      && g.list == Spec.KeysOf(cache.st.lru)
      && (forall i :: 0 <= i < |Slots()| ==> Slots()[i] in cache.repr)
      && Bounded(Slots())
      && Classed(Slots())
      && Counted()
      && Told()
    }

    /** One more event in the history. */
    ghost method Tell(e: Event, g0: Ghost)
      requires Fixed() && g0 == Run(c, history) && g == Step(c, g0, e)
      modifies `history
      ensures history == old(history) + [e] && Told()
    {
      RunSnoc(c, history, e);
      history := history + [e];
    }

    constructor (c: Config, ghost hashOf: Block -> nat)
      requires ValidConfig(c)
      ensures Valid() && this.c == c && this.hashOf == hashOf && g == Init(c) && history == []
      ensures fresh(cache) && fresh(cache.repr) && fresh(cache.table) && fresh(cache.table.list)
      ensures fresh(boundaries) && fresh(cachesStat) && fresh(reuseDistances)
    {
      hide LRUCache.Valid, Inv, Sum, W32, SizeOf, At;
      this.c := c;
      this.hashOf := hashOf;
      numTicks := NumTicks(c);
      boundaries := new Node?<Block, Meta>[NumTicks(c) - 1](_ => null);
      cachesStat := new Stat[NumTicks(c)](_ => Stat(0, 0));
      reuseDistances := new nat[NumTicks(c)](_ => 0);
      var lru := LRUCache.Create(c.maxSize, hashOf);
      cache := lru;
      reuseCount := 0;
      g := Init(c);
      history := [];
      new;
      InitKeepsInv(c);
      assert Run(c, []) == Init(c);
    }

    /** Every node of the list but the newest points to the next newer one. */
    ghost predicate Chained(l: seq<GNode>)
      reads l`next
    {
      && Distinct(l)
      && forall d {:trigger At(l, d)} :: 1 <= d < |l| ==> At(l, d).next == At(l, d - 1)
    }

    /** Boundaries numbered from `lo` up to `hi` still belong to the old list. */
    ghost predicate Halfway(l: seq<GNode>, l': seq<GNode>, lo: nat, hi: nat)
      requires Fixed()
      reads boundaries, l'`value
    {
      && (forall k :: 0 <= k < numTicks - 1 ==> boundaries[k] == BoundaryAt(c, if lo <= k < hi then l else l', k))
      && (forall d {:trigger At(l', d)} :: 1 <= d < |l'| ==> At(l', d).value.sizeIdx == Lagging(c, d, lo, hi))
    }

    lemma LagAll(l: seq<GNode>, l': seq<GNode>, reach: nat)
      requires Fixed() && Pushed(l, l', reach) && Classed(l)
      ensures forall d {:trigger At(l', d)} :: 1 <= d < |l'| ==>
                At(l', d).value.sizeIdx == Lagging(c, d, 0, Bucket(c, reach))
    {
      forall d | 1 <= d < |l'|
        ensures At(l', d).value.sizeIdx == Lagging(c, d, 0, Bucket(c, reach))
      {
        LagStart(c, d, reach);
        assert At(l', d) == if d <= reach then At(l, d - 1) else At(l, d);
      }
    }

    /** The far boundaries already stand where the new list wants them. */
    lemma FarAll(l: seq<GNode>, l': seq<GNode>, reach: nat)
      requires Fixed() && Pushed(l, l', reach) && Bounded(l)
      ensures forall k :: Bucket(c, reach) < k < numTicks - 1 ==> boundaries[k] == BoundaryAt(c, l', k)
    {
      forall k | Bucket(c, reach) < k < numTicks - 1
        ensures boundaries[k] == BoundaryAt(c, l', k)
      {
        FarBoundary(c, reach, k);
        BoundaryStays(c, l, l', reach, k);
      }
    }

    /** A hit: the accessed node's own boundary, if it is one, passes to its successor. */
    method FixHit(h: GNode, s: GNode, ghost l: seq<GNode>, ghost l': seq<GNode>, ghost reach: nat)
      returns (sizeIdx: nat)
      requires Fixed() && Pushed(l, l', reach) && Distinct(l) && reach < |l| <= c.maxSize
      requires h == At(l, reach) && s == if reach > 0 then At(l, reach - 1) else h
      requires Bounded(l) && Classed(l)
      modifies boundaries
      ensures sizeIdx == Bucket(c, reach) < numTicks && Halfway(l, l', 0, sizeIdx)
    {
      LagAll(l, l', reach);
      FarAll(l, l', reach);
      HitBoundary(c, l, l', reach);
      BucketInRange(c, reach);
      sizeIdx := h.value.sizeIdx;
      hide Pushed, BoundaryAt, Bucket, Lagging;
      if sizeIdx < numTicks - 1 && boundaries[sizeIdx] == h {
        boundaries[sizeIdx] := s;
      }
    }

    /** An insertion: the list may just have become long enough for one more boundary. */
    method FixMiss(size: nat, oldest: GNode, ghost l: seq<GNode>, ghost l': seq<GNode>, ghost reach: nat)
      returns (sizeIdx: nat)
      requires Fixed() && Pushed(l, l', reach) && reach + 1 == |l'| == size <= c.maxSize
      requires oldest == l'[0]
      requires Bounded(l) && Classed(l)
      modifies boundaries
      ensures sizeIdx == Bucket(c, reach) < numTicks && Halfway(l, l', 0, sizeIdx)
    {
      LagAll(l, l', reach);
      FarAll(l, l', reach);
      MissBoundary(c, l, l', reach);
      BucketInRange(c, reach);
      InsertIdxCounts(c, size);
      sizeIdx := if size > c.minSize then (size - c.minSize + c.tick - 1) / c.tick else 0;
      assert sizeIdx == InsertIdx(c, size);
      SizeOfClosed(c, sizeIdx);
      hide Pushed, BoundaryAt, Bucket, Lagging, InsertIdx;
      if sizeIdx < numTicks - 1 && size == sizeIdx * c.tick + c.minSize {
        boundaries[sizeIdx] := oldest;
      }
    }

    /**
     * The boundaries below the accessed key's class move one node towards the newest end,
     * and the nodes they leave behind change class.
     */
    method Advance(hi: nat, ghost l: seq<GNode>, ghost l': seq<GNode>, ghost reach: nat)
      requires Fixed() && Chained(l') && Pushed(l, l', reach) && hi == Bucket(c, reach) < numTicks
      requires Halfway(l, l', 0, hi)
      modifies boundaries, l'`value
      ensures Halfway(l, l', hi, hi)
      ensures forall n :: n in l' ==> n.value.kvSize == old(n.value.kvSize)
    {
      hide Halfway, Chained, Pushed, Bucket;
      for i := 0 to hi
        invariant Halfway(l, l', i, hi)
        invariant forall n :: n in l' ==> n.value.kvSize == old(n.value.kvSize)
      {
        AdvanceOne(i, hi, l, l', reach);
      }
    }

    method AdvanceOne(i: nat, hi: nat, ghost l: seq<GNode>, ghost l': seq<GNode>, ghost reach: nat)
      requires Fixed() && Chained(l') && Pushed(l, l', reach) && i < hi == Bucket(c, reach) < numTicks
      requires Halfway(l, l', i, hi)
      modifies boundaries, l'`value
      ensures Halfway(l, l', i + 1, hi)
      ensures forall n :: n in l' ==> n.value.kvSize == old(n.value.kvSize)
    {
      hide Pushed, BoundaryAt, Lagging, SizeOf, Bucket;
      BoundaryAdvances(c, l, l', reach, i);
      var b := boundaries[i];
      if b != null {
        LagStepAll(|l'|, i, hi);
        b.value := b.value.(sizeIdx := b.value.sizeIdx + 1);
        boundaries[i] := b.next;
      }
    }

    lemma LagStepAll(n: nat, i: nat, hi: nat)
      requires c.tick > 0 && i < hi
      ensures forall d :: 1 <= d < n ==>
                Lagging(c, d, i + 1, hi) == Lagging(c, d, i, hi) + if d == SizeOf(c, i) then 1 else 0
    {
      forall d | 1 <= d < n
        ensures Lagging(c, d, i + 1, hi) == Lagging(c, d, i, hi) + if d == SizeOf(c, i) then 1 else 0
      {
        LagStep(c, d, i, hi);
      }
    }

    lemma ChainedSlots()
      requires Cached()
      ensures Chained(Slots()) && Distinct(Slots())
      ensures Slots() != [] ==> cache.lru.next == Slots()[0]
      ensures forall i :: 0 <= i < |Slots()| ==> Slots()[i] in cache.repr
      ensures cache.size == |Slots()| <= c.maxSize
    {
      cache.IdleRing();
      cache.Facts();
      hide LRUCache.Valid;
    }

    /** The LRU step, with everything the boundaries need to know about it. */
    method Relist(key: Block, hash: nat) returns (h: GNode, s: Node?<Block, Meta>)
      requires Fixed() && Cached() && hash == hashOf(key)
      modifies cache`st, cache`size, cache.repr`next, cache.repr`prev, cache.repr`home, cache.repr`refs
      modifies cache.repr`hash, cache.repr`key, cache.repr`nextHash, cache.repr`members
      modifies cache.table`chains, cache.table`contents, cache.table`nodes, cache.table.list
      ensures Cached() && cache.st == Spec.Insert(old(cache.st), key, false)
      ensures Spec.KeysOf(cache.st.lru) == Plain.Touch(Spec.KeysOf(old(cache.st).lru), key, c.maxSize)
      ensures Pushed(old(Slots()), Slots(), Reach(old(cache.st), key)) && Chained(Slots())
      ensures Slots() != [] && h == At(Slots(), 0) && h.key == key && h in cache.repr
      ensures forall i :: 0 <= i < |Slots()| ==> Slots()[i] in cache.repr
      ensures s == null <==> !Spec.Idle(old(cache.st), key)
      ensures s == null ==> Reach(old(cache.st), key) + 1 == |Slots()| == cache.size <= c.maxSize
      ensures s == null ==> cache.lru.next == Slots()[0]
      ensures s != null ==> var l, reach := old(Slots()), Reach(old(cache.st), key);
                            && Distinct(l) && reach < |l| <= c.maxSize && h == At(l, reach)
                            && s == if reach > 0 then At(l, reach - 1) else h
    {
      hide LRUCache.Valid, Spec.Inv, Spec.Insert, Spec.Find, Pushed, Chained, Reach, SlotsOf, Plain.Touch, Spec.KeysOf;
      ghost var st := cache.st;
      if Spec.Idle(st, key) {
        ReachOfPresent(st, key);
      }
      cache.Facts();
      cache.AbsentIff(key);
      ChainedSlots();
      InsertPushes(st, key);
      Refines.InsertIsTouch(st, key);
      Refines.InsertedIsNewest(st, key);
      var e: Node?<Block, Meta>;
      e, s := cache.Refresh(key, hash);
      cache.Tabled(|cache.st.lru| - 1);
      cache.IdleRing();
      h := e;
      ChainedSlots();
    }

    method BumpDistance(i: nat, ghost hist: seq<nat>)
      requires Histogram(hist) && i < |hist|
      modifies reuseDistances
      ensures Histogram(Bump(hist, i))
    {
      WrapAdd(hist[i], 1);
      hide W32;
      reuseDistances[i] := W32(reuseDistances[i] + 1);
    }

    lemma OpenCounted()
      requires Fixed() && Counted()
      ensures Inv(c, g) && c.tick > 0 && Histogram(g.hist) && |g.hist| == numTicks > 0
      ensures reuseCount == W32(g.count) && cachesStat[..] == g.stats
    {
    }

    lemma CloseCounted()
      requires Inv(c, g) && Histogram(g.hist) && reuseCount == W32(g.count) && cachesStat[..] == g.stats
      ensures Counted()
    {
    }

    /** What the access does to the counters, in terms of its outcome. */
    lemma Recorded(key: Block, mode: Mode, hit: bool, sizeIdx: nat)
      requires Inv(c, g) && (hit <==> key in g.list)
      requires hit ==> sizeIdx == Bucket(c, Distance(g.list, key))
      ensures var r := AccessStep(c, g, key, mode);
              && Inv(c, r) && r.stats == g.stats
              && r.count == g.count + (if mode == Noop then 0 else 1)
              && r.hist == if mode == AsHit then Bump(g.hist, 0)
                           else if mode == Default && hit then Bump(g.hist, sizeIdx) else g.hist
    {
      hide Bucket, Distance, Bump, Plain.Touch, Sum;
      AccessKeepsInv(c, g, key, mode);
    }

    /** Counts the access the way its mode asks for. */
    method Record(key: Block, mode: Mode, hit: bool, sizeIdx: nat)
      requires Fixed() && Counted()
      requires hit <==> key in g.list
      requires hit ==> sizeIdx == Bucket(c, Distance(g.list, key)) < numTicks
      modifies `g, `reuseCount, reuseDistances
      ensures Counted() && g == AccessStep(c, old(g), key, mode)
    {
      hide *;
      OpenCounted();
      Recorded(key, mode, hit, sizeIdx);
      WrapAdd(g.count, 1);
      match mode {
        case Default =>
          if hit {
            BumpDistance(sizeIdx, g.hist);
          }
          reuseCount := W32(reuseCount + 1);
        case AsMiss =>
          reuseCount := W32(reuseCount + 1);
        case AsHit =>
          BumpDistance(0, g.hist);
          reuseCount := W32(reuseCount + 1);
        case Noop =>
      }
      g := AccessStep(c, g, key, mode);
      CloseCounted();
    }

    /** Brings the boundaries and the size classes up to date with the moved list. */
    method Reclassify(h: GNode, s: Node?<Block, Meta>, ghost l: seq<GNode>, ghost l': seq<GNode>, ghost reach: nat)
      returns (sizeIdx: nat)
      requires Fixed() && Chained(l') && Pushed(l, l', reach) && l' != [] && h == At(l', 0)
      requires s == null ==> reach + 1 == |l'| == cache.size <= c.maxSize && cache.lru.next == l'[0]
      requires s != null ==> && Distinct(l) && reach < |l| <= c.maxSize && h == At(l, reach)
                             && s == if reach > 0 then At(l, reach - 1) else h
      requires Bounded(l) && Classed(l)
      modifies boundaries, l'`value
      ensures Bounded(l') && Classed(l') && sizeIdx == Bucket(c, reach) < numTicks
      ensures forall n :: n in l' ==> n.value.kvSize == old(n.value.kvSize)
    {
      hide Bounded, Classed, Halfway, Chained, Pushed, Bucket;
      if s != null {
        sizeIdx := FixHit(h, s, l, l', reach);
      } else {
        sizeIdx := FixMiss(cache.size, cache.lru.next, l, l', reach);
      }
      Advance(sizeIdx, l, l', reach);
      assert h in l';
      Front(h, l, l', sizeIdx);
    }

    /** The accessed node, now the newest, is in the smallest class. */
    method Front(h: GNode, ghost l: seq<GNode>, ghost l': seq<GNode>, ghost hi: nat)
      requires Fixed() && Chained(l') && l' != [] && h == At(l', 0) && Halfway(l, l', hi, hi)
      modifies h`value
      ensures Bounded(l') && Classed(l') && h.value.kvSize == old(h.value.kvSize)
    {
      forall d | 1 <= d < |l'|
        ensures At(l', d) != h && At(l', d).value.sizeIdx == Bucket(c, d)
      {
        LagEnd(c, d, hi);
      }
      hide Lagging, BoundaryAt;
      h.value := h.value.(sizeIdx := 0);
    }

    /** The list, the boundaries and the size classes after one access. */
    method Move(key: Block, hash: nat) returns (h: GNode, hit: bool, sizeIdx: nat)
      requires Fixed() && Cached() && Bounded(Slots()) && Classed(Slots()) && hash == hashOf(key)
      modifies boundaries, cache.repr`value
      modifies cache`st, cache`size, cache.repr`next, cache.repr`prev, cache.repr`home, cache.repr`refs
      modifies cache.repr`hash, cache.repr`key, cache.repr`nextHash, cache.repr`members
      modifies cache.table`chains, cache.table`contents, cache.table`nodes, cache.table.list
      ensures Cached() && cache.st == Spec.Insert(old(cache.st), key, false)
      ensures Spec.KeysOf(cache.st.lru) == Plain.Touch(Spec.KeysOf(old(cache.st).lru), key, c.maxSize)
      ensures Bounded(Slots()) && Classed(Slots())
      ensures Slots() != [] && h == At(Slots(), 0) && h.key == key && h in cache.repr
      ensures forall i :: 0 <= i < |Slots()| ==> Slots()[i] in cache.repr
      ensures hit <==> Spec.Idle(old(cache.st), key)
      ensures sizeIdx == Bucket(c, Reach(old(cache.st), key)) < numTicks
      ensures forall n :: n in cache.repr ==> n.value.kvSize == old(n.value.kvSize)
    {
      hide Cached, Chained, Pushed, Bounded, Classed, Reach, SlotsOf, Bucket, SizeOf, At,
           Spec.Insert, Spec.Find, Spec.Idle, Spec.KeysOf, Plain.Touch;
      ghost var st, l := cache.st, Slots();
      var s: Node?<Block, Meta>;
      h, s := Relist(key, hash);
      hit := s != null;
      sizeIdx := Reclassify(h, s, l, Slots(), Reach(st, key));
    }

    lemma ReachIsDistance(key: Block)
      requires g.list == Spec.KeysOf(cache.st.lru)
      ensures Spec.Idle(cache.st, key) <==> key in g.list
      ensures key in g.list ==> Reach(cache.st, key) == Distance(g.list, key)
    {
      Refines.FindIsIndexOf(cache.st.lru, key);
    }

    /** One access, and its place in the statistics. */
    method AccessImpl(key: Block, hash: nat, mode: Mode) returns (h: GNode)
      requires Valid() && hash == hashOf(key)
      modifies `g, `history, `reuseCount, reuseDistances, boundaries, cache.repr`value
      modifies cache`st, cache`size, cache.repr`next, cache.repr`prev, cache.repr`home, cache.repr`refs
      modifies cache.repr`hash, cache.repr`key, cache.repr`nextHash, cache.repr`members
      modifies cache.table`chains, cache.table`contents, cache.table`nodes, cache.table.list
      ensures Valid() && g == AccessStep(c, old(g), key, mode)
      ensures history == old(history) + [Access(key, mode)]
      ensures cache.st == Spec.Insert(old(cache.st), key, false)
      ensures Slots() != [] && h == At(Slots(), 0) && h.key == key && h in cache.repr
      ensures forall n :: n in cache.repr ==> n.value.kvSize == old(n.value.kvSize)
    {
      hide Cached, Counted, Bounded, Classed, Reach, SlotsOf, Bucket, Distance, At,
           Spec.Insert, Spec.Find, Spec.Idle, Spec.KeysOf, Plain.Touch, Run;
      ReachIsDistance(key);
      var hit, sizeIdx;
      h, hit, sizeIdx := Move(key, hash);
      Record(key, mode, hit, sizeIdx);
      Tell(Access(key, mode), old(g));
    }

    /** The metadata of the key-value variant is no concern of the ghost cache itself. */
    method SetKvSize(h: GNode, kvSize: nat)
      requires Valid() && h in cache.repr
      modifies h`value
      ensures Valid() && h.value.kvSize == kvSize
    {
      hide Cached, Bounded, Counted, Told, SlotsOf, Spec.KeysOf;
      h.value := h.value.(kvSize := kvSize);
    }

    /** Rebuilds every stored pair from the histogram. */
    method BuildCachesStat()
      requires Fixed() && Counted()
      modifies `g, cachesStat
      ensures Counted() && g == old(g).(stats := Build(old(g).hist, old(g).count))
    {
      var accumHitCnt := 0;
      for idx := 0 to cachesStat.Length
        invariant g == old(g) && Histogram(g.hist) && reuseCount == W32(g.count)
        invariant accumHitCnt == W32(Sum(g.hist[..idx]))
        invariant forall i :: 0 <= i < idx ==> cachesStat[i] == BuildStat(g.hist, g.count, i)
      {
        accumHitCnt := AddDistance(accumHitCnt, idx);
        cachesStat[idx] := Stat(accumHitCnt, W32(reuseCount - accumHitCnt));
      }
      g := g.(stats := Build(g.hist, g.count));
    }

    method AddDistance(accum: nat, idx: nat) returns (r: nat)
      requires Histogram(g.hist) && idx < |g.hist| && accum == W32(Sum(g.hist[..idx]))
      requires reuseCount == W32(g.count)
      ensures r == W32(Sum(g.hist[..idx + 1]))
      ensures Stat(r, W32(reuseCount - r)) == BuildStat(g.hist, g.count, idx)
    {
      r := W32(accum + reuseDistances[idx]);
      WrapSum(Sum(g.hist[..idx]), g.hist[idx]);
      SumAppend(g.hist, idx);
      WrapDifference(g.count, Sum(g.hist[..idx + 1]));
    }

    /** What the history says about a query of the `i`-th size. */
    lemma AnswerTold(i: nat, cacheSize: nat)
      requires Fixed() && Told() && i < NumTicks(c) && cacheSize == SizeOf(c, i)
      ensures var (p, q) := (PlainRun(cacheSize, history), PlainRun(cacheSize, history[..BuiltAfter(c, history)]));
              && i < |g.stats| == |g.hist|
              && Answer(g, i) == QueryResult(p, q)
              && (var v := ViewOf(c, history);
                  !Fooled(v) && v.builtCount < WORD && v.count < WORD ==> Answer(g, i) == Some(Stat(p.hits, p.misses)))
    {
      hide Run, PlainRun, SizeOf, BuiltAfter, ViewOf, Answer, QueryResult, NumTicks;
      AnswerOverRuns(c, history, i);
      var v := ViewOf(c, history);
      if !Fooled(v) && v.builtCount < WORD && v.count < WORD {
        QueryIsPlainLru(c, history, i);
      }
    }

    /**
     * The statistics of one simulated size; `None` stands for the failing closing assertion.
     * Whatever was done before, the answer is told by a plain LRU cache of that size now and at
     * the last rebuild; unless the stored pairs could be mistaken for current ones, it is that
     * cache's hits and misses.
     */
    method GetStat(cacheSize: nat) returns (r: Option<Stat>)
      requires Valid()
      requires c.minSize <= cacheSize <= c.maxSize && (cacheSize - c.minSize) % c.tick == 0
      modifies `g, `history, cachesStat
      ensures Valid()
      ensures var i := IndexOfSize(c, cacheSize);
              && history == old(history) + [Query(i)]
              && i < |old(g).stats| == |old(g).hist|
              && g == QueryStep(old(g), i) && r == Answer(old(g), i)
      ensures var es := old(history);
              r == QueryResult(PlainRun(cacheSize, es), PlainRun(cacheSize, es[..BuiltAfter(c, es)]))
      ensures var v := ViewOf(c, old(history));
              var p := PlainRun(cacheSize, old(history));
              !Fooled(v) && v.builtCount < WORD && v.count < WORD ==> r == Some(Stat(p.hits, p.misses))
    {
      hide Cached, Bounded, Classed, Histogram, BuildStat, Spec.KeysOf, SlotsOf,
           Run, PlainRun, SizeOf, BuiltAfter, ViewOf, QueryResult;
      IndexOfSizeIsRight(c, cacheSize);
      var sizeIdx := (cacheSize - c.minSize) / c.tick;
      AnswerTold(sizeIdx, cacheSize);
      if cachesStat[sizeIdx].hit + cachesStat[sizeIdx].miss != reuseCount {
        BuildCachesStat();
      }
      Tell(Query(sizeIdx), old(g));
      if cachesStat[sizeIdx].hit + cachesStat[sizeIdx].miss == reuseCount {
        return Some(cachesStat[sizeIdx]);
      } else {
        return None;
      }
    }

    /** Zeroes the counters; the list, the boundaries and the stored pairs stay. */
    method ResetStat()
      requires Valid()
      modifies `g, `history, `reuseCount, reuseDistances
      ensures Valid() && g == Step(c, old(g), Reset) && history == old(history) + [Reset]
    {
      hide Cached, Bounded, Classed, Spec.KeysOf, SlotsOf, Sum, Inv, Run;
      StepKeepsInv(c, g, Reset);
      assert |g.hist| == |Step(c, g, Reset).hist|;
      reuseCount := 0;
      for i := 0 to reuseDistances.Length
        invariant g == old(g) && history == old(history) && reuseCount == 0 && cachesStat[..] == g.stats
        invariant forall j :: 0 <= j < i ==> reuseDistances[j] == 0
      {
        reuseDistances[i] := 0;
      }
      g := Step(c, g, Reset);
      Tell(Reset, old(g));
    }

    /** The keys of the list, oldest first. */
    method ForEachLru() returns (keys: seq<Block>)
      requires Valid()
      ensures keys == g.list
    {
      hide LRUCache.Valid;
      keys := cache.ForEachLru();
    }

    /** Replays a checkpoint, uncounted, into a cache just constructed. */
    static method Recover(keys: seq<Block>, c: Config, hash: Block -> nat) returns (gc: GhostCache)
      requires ValidConfig(c)
      ensures gc.Valid() && gc.c == c && gc.hashOf == hash && gc.history == SamplingSpec.Replay(keys)
      ensures gc.g == Run(c, SamplingSpec.Replay(keys))
    {
      hide GhostCache.Valid, AccessStep, Run, SamplingSpec.Replay;
      gc := new GhostCache(c, hash);
      assert keys[..0] == [];
      SamplingSpec.ReplayNone(c);
      for i := 0 to |keys|
        invariant gc.Valid() && gc.c == c && gc.hashOf == hash
        invariant gc.history == SamplingSpec.Replay(keys[..i]) && gc.g == Run(c, gc.history)
        invariant fresh(gc) && fresh(gc.boundaries) && fresh(gc.cachesStat) && fresh(gc.reuseDistances)
        invariant fresh(gc.cache) && fresh(gc.cache.repr) && fresh(gc.cache.table) && fresh(gc.cache.table.list)
      {
        SamplingSpec.ReplayStep(c, keys, i);
        var _ := gc.AccessImpl(keys[i], hash(keys[i]), Noop);
      }
      assert keys[..|keys|] == keys;
    }
  }
}
