/** The sampled variants of the ghost cache, for blocks and for key-value pairs. */
module SampledCaches {
  import opened Words
  import opened Buckets
  import opened LruCache
  import opened GhostSpec
  import opened GhostCache
  import opened LazyStats
  import opened SamplingSpec
  import opened CurveSpec
  import opened KvSpec
  import Plain = PlainLru
  import Spec = LruSpec

  /** Sees only the blocks whose hash starts with `shift` zero bits; all sizes are scaled down alike. */
  class SampledGhostCache {
    const unscaled: Config
    const shift: nat
    const hash: Block -> nat
    const base: GhostCache
    /** Everything that was ever done to it, sampled or not. */
    ghost var history: seq<Event>

    ghost predicate Valid()
      reads this, base, base.boundaries, base.reuseDistances, base.cachesStat
      reads base.cache, base.cache.repr, base.cache.table, base.cache.table.list, base.cache.table.nodes
    {
      && ValidSampling(unscaled, shift)
      && base.Valid()
      && base.c == ScaleConfig(unscaled, shift)
      && base.hashOf == hash
      && base.history == Subtrace(hash, shift, history)
    }

    constructor (unscaled: Config, shift: nat, hash: Block -> nat)
      requires ValidSampling(unscaled, shift)
      ensures Valid() && this.unscaled == unscaled && this.shift == shift && this.hash == hash && history == []
      ensures base.g == Init(ScaleConfig(unscaled, shift))
    {
      hide GhostCache.Valid;
      this.unscaled := unscaled;
      this.shift := shift;
      this.hash := hash;
      var gc := new GhostCache(ScaleConfig(unscaled, shift), hash);
      base := gc;
      history := [];
    }

    method Access(key: Block, mode: Mode)
      requires Valid()
      modifies `history, base`g, base`history, base`reuseCount
      modifies base.reuseDistances, base.boundaries, base.cache.repr`value
      modifies base.cache`st, base.cache`size, base.cache.repr`next, base.cache.repr`prev, base.cache.repr`home
      modifies base.cache.repr`refs, base.cache.repr`hash, base.cache.repr`key, base.cache.repr`nextHash
      modifies base.cache.repr`members, base.cache.table`chains, base.cache.table`contents
      modifies base.cache.table`nodes, base.cache.table.list
      ensures Valid()
      ensures base.g == if hash(key) < Pow2(32 - shift) then AccessStep(base.c, old(base.g), key, mode) else old(base.g)
      ensures history == old(history) + [GhostSpec.Access(key, mode)]
    {
      hide GhostCache.Valid, AccessStep, Subtrace, Pow2, Div, ScaleConfig;
      AccessSampled(hash, shift, history, key, mode);
      history := history + [GhostSpec.Access(key, mode)];
      var h := hash(key);
      if Div(h, Pow2(32 - shift)) == 0 {
        var _ := base.AccessImpl(key, h, mode);
      }
    }

    /**
     * The size is shifted right before it is looked up.  The answer is that of a plain LRU cache
     * of the shifted size run over the sampled part of the history.
     */
    method GetStat(cacheSize: nat) returns (r: Option<Stat>)
      requires Valid()
      requires base.c.minSize <= Scale(cacheSize, shift) <= base.c.maxSize
      requires (Scale(cacheSize, shift) - base.c.minSize) % base.c.tick == 0
      modifies `history, base`g, base`history, base.cachesStat
      ensures Valid()
      ensures var i := IndexOfSize(base.c, Scale(cacheSize, shift));
              && history == old(history) + [Query(i)]
              && i < |old(base.g).stats| == |old(base.g).hist|
              && base.g == QueryStep(old(base.g), i) && r == Answer(old(base.g), i)
      ensures var es := Subtrace(hash, shift, old(history));
              var v := ViewOf(base.c, es);
              var p := PlainRun(Scale(cacheSize, shift), es);
              && r == QueryResult(p, PlainRun(Scale(cacheSize, shift), es[..BuiltAfter(base.c, es)]))
              && (!Fooled(v) && v.builtCount < WORD && v.count < WORD ==> r == Some(Stat(p.hits, p.misses)))
    {
      hide GhostCache.Valid, Answer, QueryStep, Subtrace, ViewOf, PlainRun, BuiltAfter, QueryResult;
      ghost var e := Query(IndexOfSize(base.c, Scale(cacheSize, shift)));
      SubtraceSnoc(hash, shift, history, e);
      history := history + [e];
      r := base.GetStat(Scale(cacheSize, shift));
    }

    method ResetStat()
      requires Valid()
      modifies `history, base`g, base`history, base`reuseCount, base.reuseDistances
      ensures Valid() && base.g == Step(base.c, old(base.g), Reset) && history == old(history) + [Reset]
    {
      hide GhostCache.Valid, Step, Subtrace;
      SubtraceSnoc(hash, shift, history, Reset);
      history := history + [Reset];
      base.ResetStat();
    }

    /** The advertised sizes are the ones the constructor was given. */
    method GetSizes() returns (tick: nat, minSize: nat, maxSize: nat)
      requires Valid()
      ensures tick == unscaled.tick && minSize == unscaled.minSize && maxSize == unscaled.maxSize
    {
      hide GhostCache.Valid, Pow2;
      ScaleExact(unscaled.tick, shift);
      ScaleExact(unscaled.minSize, shift);
      ScaleExact(unscaled.maxSize, shift);
      tick := base.c.tick * Pow2(shift);
      minSize := base.c.minSize * Pow2(shift);
      maxSize := base.c.maxSize * Pow2(shift);
    }
  }

  /** All entries but the newest are old entries after an unpinned insertion. */
  lemma OldEntry(st: Spec.State<GNode, Block>, k: Block, m: nat) returns (i: nat)
    requires Spec.Inv(st) && st.inUse == [] && Spec.Capacity(st) > 0
    requires m + 1 < |Spec.Insert(st, k, false).lru|
    ensures i < |st.lru| && Spec.Insert(st, k, false).lru[m] == st.lru[i]
  {
    var t := Spec.Insert(st, k, false);
    i := if m < |st.lru| && t.lru[m] == st.lru[m] then m else m + 1;
  }

  /** Keys are their own hashes; each node also carries the latest size of its pair. */
  class SampledGhostKvCache {
    const shift: nat
    const base: GhostCache
    /** The latest size given for each key. */
    ghost var sizes: map<Block, nat>
    /** Everything that was ever done to it, sampled or not. */
    ghost var history: seq<KvEvent>

    ghost predicate Sized()
      reads `sizes, base.cache`st, base.cache`repr, base.cache.repr`value
    {
      forall i :: 0 <= i < |base.cache.st.lru| ==>
        var e := base.cache.st.lru[i];
        e.slot in base.cache.repr && e.key in sizes && e.slot.value.kvSize == sizes[e.key]
    }

    ghost predicate Told()
      requires shift <= 32
      reads `sizes, `history, base`history
    {
      && sizes == LatestSizes(shift, history)
      && base.history == Subtrace(Identity, shift, Events(history))
    }

    ghost predicate Valid()
      reads this, base, base.boundaries, base.reuseDistances, base.cachesStat
      reads base.cache, base.cache.repr, base.cache.table, base.cache.table.list, base.cache.table.nodes
    {
      && 0 < shift < 32
      && base.Valid()
      && base.c.maxSize < WORD
      && base.hashOf == Identity
      && Sized()
      && Told()
    }

    constructor (unscaled: Config, shift: nat)
      requires ValidSampling(unscaled, shift) && Scale(unscaled.maxSize, shift) < WORD
      ensures Valid() && this.shift == shift && sizes == map[] && history == []
      ensures base.c == ScaleConfig(unscaled, shift) && base.g == Init(base.c)
    {
      this.shift := shift;
      var gc := new GhostCache(ScaleConfig(unscaled, shift), Identity);
      base := gc;
      sizes := map[];
      history := [];
    }

    /** Only keys below 2^(32 - shift) are sampled. */
    method Access(key: Block, kvSize: nat, mode: Mode)
      requires Valid()
      modifies `sizes, `history, base`g, base`history, base`reuseCount
      modifies base.reuseDistances, base.boundaries, base.cache.repr`value
      modifies base.cache`st, base.cache`size, base.cache.repr`next, base.cache.repr`prev, base.cache.repr`home
      modifies base.cache.repr`refs, base.cache.repr`hash, base.cache.repr`key, base.cache.repr`nextHash
      modifies base.cache.repr`members, base.cache.table`chains, base.cache.table`contents
      modifies base.cache.table`nodes, base.cache.table.list
      ensures Valid()
      ensures base.g == if key < Pow2(32 - shift) then AccessStep(base.c, old(base.g), key, mode) else old(base.g)
      ensures sizes == if key < Pow2(32 - shift) then old(sizes)[key := kvSize] else old(sizes)
      ensures history == old(history) + [KvAccess(key, kvSize, mode)]
    {
      hide GhostCache.Valid, AccessStep, Spec.Insert, Spec.Inv, Spec.Capacity, LatestSizes, Subtrace, Events,
           Pow2, Div;
      KvAccessSampled(shift, history, key, kvSize, mode);
      history := history + [KvAccess(key, kvSize, mode)];
      if Div(key, Pow2(32 - shift)) != 0 {
        return;
      }
      ghost var st := base.cache.st;
      Ready();
      var h := base.AccessImpl(key, key, mode);
      NewEntries(key);
      ghost var l := base.cache.st.lru;
      forall m | 0 <= m < |l| - 1
        ensures l[m].key in sizes && l[m].slot.value.kvSize == sizes[l[m].key]
      {
        var i := OldEntry(st, key, m);
        assert old(st.lru[i].slot.value.kvSize) == sizes[st.lru[i].key];
      }
      Store(h, key, kvSize);
    }

    /** Looking at the statistics is all that happened in between. */
    static ghost predicate OnlyQueries(before: seq<KvEvent>, after: seq<KvEvent>) {
      before <= after && forall j :: |before| <= j < |after| ==> after[j].KvQuery?
    }

    lemma Ready()
      requires base.Valid()
      ensures Spec.Inv(base.cache.st) && base.cache.st.inUse == [] && Spec.Capacity(base.cache.st) > 0
    {
      hide Spec.Inv, LRUCache.Valid;
      base.cache.Facts();
    }

    lemma NewEntries(key: Block)
      requires base.Valid()
      ensures var l := base.cache.st.lru;
              && (forall i, j :: 0 <= i < j < |l| ==> l[i].slot != l[j].slot && l[i].key != l[j].key)
              && (forall i :: 0 <= i < |l| ==> l[i].slot in base.cache.repr && l[i].slot.key == l[i].key)
              && (forall i :: 0 <= i < |l| ==> base.Slots()[i] == l[i].slot)
    {
      hide LRUCache.Valid;
      base.cache.Facts();
      base.cache.IdleRing();
    }

    method Store(h: GNode, key: Block, kvSize: nat)
      requires base.Valid() && h in base.cache.repr
      requires var l := base.cache.st.lru;
               && l != [] && l[|l| - 1].slot == h && l[|l| - 1].key == key
               && (forall i, j :: 0 <= i < j < |l| ==> l[i].slot != l[j].slot && l[i].key != l[j].key)
               && forall m :: 0 <= m < |l| - 1 ==>
                    l[m].slot in base.cache.repr && l[m].key in sizes && l[m].slot.value.kvSize == sizes[l[m].key]
      modifies `sizes, h`value
      ensures base.Valid() && Sized() && sizes == old(sizes)[key := kvSize]
    {
      hide GhostCache.Valid;
      base.SetKvSize(h, kvSize);
      sizes := sizes[key := kvSize];
    }

    /** The point of the size `count`, if the unsigned test selects it; `None` is a failing assertion. */
    method Visit(count: nat, size: nat, points: seq<Point>, ghost g0: Ghost) returns (r: Option<seq<Point>>)
      requires Valid() && 0 < count <= |g0.list| <= base.c.maxSize
      requires |g0.hist| == |g0.stats| == NumTicks(base.c)
      requires Curve(base.c, shift, g0, sizes, count - 1) == Outcome(base.g, Some(points))
      requires size == W32(KvSum(Plain.Newest(g0.list, count), sizes))
      modifies `history, base`g, base`history, base.cachesStat
      ensures Valid() && Curve(base.c, shift, g0, sizes, count) == Outcome(base.g, r)
      ensures OnlyQueries(old(history), history)
    {
      hide GhostCache.Valid, Answer, QueryStep, Pow2, W32, SizeOf, KvSum, Plain.Newest, LatestSizes, Subtrace, Events,
           PlainRun, ViewOf, BuiltAfter, QueryResult;
      SelectedSize(count);
      WrapShift(KvSum(Plain.Newest(g0.list, count), sizes), Pow2(shift));
      r := Some(points);
      if W32(count - base.c.minSize) % base.c.tick == 0 {
        if count < base.c.minSize {
          return None;
        }
        ghost var e := KvQuery(IndexOfSize(base.c, count));
        KvSnoc(shift, history, e);
        history := history + [e];
        var stat := base.GetStat(count);
        match stat
        case None => r := None;
        case Some(st) =>
          r := Some(points + [Point(W32(count * Pow2(shift)), W32(size * Pow2(shift)), st)]);
      }
    }

    /** The statistics of one simulated count, which is shifted right before it is looked up. */
    method GetStat(count: nat) returns (r: Option<Stat>)
      requires Valid()
      requires base.c.minSize <= Scale(count, shift) <= base.c.maxSize
      requires (Scale(count, shift) - base.c.minSize) % base.c.tick == 0
      modifies `history, base`g, base`history, base.cachesStat
      ensures Valid() && history == old(history) + [KvQuery(IndexOfSize(base.c, Scale(count, shift)))]
      ensures var es := Subtrace(Identity, shift, Events(old(history)));
              var p := PlainRun(Scale(count, shift), es);
              && r == QueryResult(p, PlainRun(Scale(count, shift), es[..BuiltAfter(base.c, es)]))
              && (Trustworthy(base.c, shift, old(history)) ==> r == Some(Stat(p.hits, p.misses)))
    {
      hide GhostCache.Valid, Answer, QueryStep, LatestSizes, Subtrace, Events, ViewOf, PlainRun,
           BuiltAfter, QueryResult;
      SelectedSize(Scale(count, shift));
      ghost var e := KvQuery(IndexOfSize(base.c, Scale(count, shift)));
      KvSnoc(shift, history, e);
      history := history + [e];
      r := base.GetStat(Scale(count, shift));
    }

    method ResetStat()
      requires Valid()
      modifies `history, base`g, base`history, base`reuseCount, base.reuseDistances
      ensures Valid() && base.g == Step(base.c, old(base.g), Reset) && history == old(history) + [KvReset]
    {
      hide GhostCache.Valid, Step, LatestSizes, Subtrace, Events;
      KvSnoc(shift, history, KvReset);
      history := history + [KvReset];
      base.ResetStat();
    }

    lemma SelectedSize(n: nat)
      requires Valid() && n <= base.c.maxSize
      ensures base.c.tick > 0 && base.c.minSize <= base.c.maxSize
      ensures base.c.minSize <= n && OnGrid(base.c, n) ==>
                (n - base.c.minSize) % base.c.tick == 0 && IndexOfSize(base.c, n) < NumTicks(base.c)
    {
      if base.c.minSize <= n && OnGrid(base.c, n) {
        IndexOfSizeIsRight(base.c, n);
      }
    }

    /** The list as the links run from the newest end, and the sizes its nodes carry. */
    lemma Walkable()
      requires Valid()
      ensures var l := base.cache.st.lru;
              && |l| == |base.g.list| <= base.c.maxSize
              && base.cache.lru.prev == (if l == [] then base.cache.lru else l[|l| - 1].slot)
      ensures var l := base.cache.st.lru;
              forall i {:trigger l[i].slot.prev} :: 0 <= i < |l| ==>
                && l[i].slot != base.cache.lru
                && l[i].slot.prev == (if i > 0 then l[i - 1].slot else base.cache.lru)
                && l[i].slot.value.kvSize == SizeIn(sizes, base.g.list[i])
    {
      hide LRUCache.Valid;
      base.cache.IdleRingBack();
      base.ChainedSlots();
      ghost var l := base.cache.st.lru;
      forall i | 0 <= i < |l|
        ensures l[i].slot.value.kvSize == SizeIn(sizes, base.g.list[i])
      {
        assert base.g.list[i] == l[i].key;
      }
    }

    lemma CurveStart(g0: Ghost)
      requires Valid() && g0 == base.g
      ensures |g0.hist| == |g0.stats| == NumTicks(base.c) && base.c.tick > 0 && base.c.minSize <= base.c.maxSize
      ensures Curve(base.c, shift, g0, sizes, 0) == Outcome(g0, Some([]))
      ensures 0 == W32(KvSum(Plain.Newest(g0.list, 0), sizes))
    {
      hide LRUCache.Valid;
    }

    /** The state the curve is drawn from is the one the history leads to. */
    lemma ToldCurve()
      requires base.Valid() && shift <= 32 && Told() && base.c.maxSize < WORD
      ensures base.c.tick > 0 && base.c.minSize <= base.c.maxSize
      ensures var n := |base.g.list|;
              && |base.g.hist| == |base.g.stats| == NumTicks(base.c)
              && (Trustworthy(base.c, shift, history) ==>
                    PlainKvCurve(base.c, shift, history, n, Curve(base.c, shift, base.g, sizes, n).points))
    {
      hide LRUCache.Valid, Run, Curve, NumTicks, Trustworthy, LatestSizes, Subtrace, Events, PlainKvCurve;
      SampledRunIsSubtraceRun(base.c, Identity, shift, Events(history));
      if Trustworthy(base.c, shift, history) {
        KvCurveMatchesPlain(base.c, shift, history);
      }
    }

    /**
     * Walks the list from the newest key and emits a point at every simulated size.  Whatever
     * was done before, with trustworthy statistics the points are those of plain LRU caches.
     */
    method GetCacheStatCurve() returns (r: Option<seq<Point>>)
      requires Valid()
      modifies `history, base`g, base`history, base.cachesStat
      ensures Valid() && OnlyQueries(old(history), history)
      ensures |old(base.g).hist| == |old(base.g).stats| == NumTicks(base.c)
      ensures base.c.tick > 0 && base.c.minSize <= base.c.maxSize
      ensures Curve(base.c, shift, old(base.g), sizes, |old(base.g).list|) == Outcome(base.g, r)
      ensures Trustworthy(base.c, shift, old(history)) ==>
                PlainKvCurve(base.c, shift, old(history), |old(base.g).list|, r)
    {
      hide Curve, KvSum, W32, Plain.Newest, NumTicks, GhostCache.Valid, Trustworthy, PlainKvCurve, Told, Sized;
      ghost var g0, l := base.g, base.cache.st.lru;
      ToldCurve();
      Walkable();
      CurveStart(g0);
      var points: seq<Point> := [];
      var count, size := 0, 0;
      var h := base.cache.lru.prev;
      while h != base.cache.lru
        invariant Valid() && count <= |l| && OnlyQueries(old(history), history)
        invariant h == if count < |l| then l[|l| - 1 - count].slot else base.cache.lru
        invariant Curve(base.c, shift, g0, sizes, count) == Outcome(base.g, Some(points))
        invariant size == W32(KvSum(Plain.Newest(g0.list, count), sizes))
        decreases |l| - count
      {
        KvSumOneMore(g0.list, sizes, count);
        WrapAdd(KvSum(Plain.Newest(g0.list, count), sizes), h.value.kvSize);
        assert h == l[|l| - 1 - count].slot && h.prev == l[|l| - 1 - count].slot.prev;
        size := W32(size + h.value.kvSize);
        count := count + 1;
        r := Visit(count, size, points, g0);
        if r.None? {
          CurveStops(g0, count);
          return;
        }
        points := r.value;
        h := h.prev;
      }
      r := Some(points);
    }

    /** Nothing follows a failed assertion. */
    lemma {:induction false} CurveStops(g0: Ghost, n: nat)
      requires base.c.tick > 0 && base.c.minSize <= base.c.maxSize
      requires |g0.hist| == |g0.stats| == NumTicks(base.c)
      requires n <= |g0.list| && Curve(base.c, shift, g0, sizes, n).points.None?
      ensures Curve(base.c, shift, g0, sizes, |g0.list|) == Curve(base.c, shift, g0, sizes, n)
      decreases |g0.list| - n
    {
      hide KvSum, Plain.Newest, OnGrid, IndexOfSize, Answer, QueryStep, ScaledPoint;
      if n < |g0.list| {
        CurveStops(g0, n + 1);
      }
    }
  }
}
