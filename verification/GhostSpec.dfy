/**
 * What a ghost cache is for: one LRU list and one reuse-distance histogram that answer,
 * for every simulated size at once, what a separate plain LRU cache would have scored.
 */
module GhostSpec {
  import opened Seqs
  import opened Words
  import opened Buckets
  import opened PlainLru

  type Block = nat

  datatype Mode = Default | AsMiss | AsHit | Noop

  datatype Stat = Stat(hit: nat, miss: nat)

  datatype Option<+T> = None | Some(value: T)

  /**
   * `hist` and `count` are the true, unwrapped values of `reuse_distances` and
   * `reuse_count`; `stats` is what `caches_stat` currently stores.
   */
  datatype Ghost = Ghost(list: seq<Block>, hist: seq<nat>, count: nat, stats: seq<Stat>)

  datatype Event = Access(key: Block, mode: Mode) | Reset | Query(idx: nat)

  ghost predicate Inv(c: Config, g: Ghost) {
    && ValidConfig(c)
    && Distinct(g.list)
    && |g.list| <= c.maxSize
    && |g.hist| == NumTicks(c)
    && |g.stats| == NumTicks(c)
    && Sum(g.hist) <= g.count
  }

  function Zeros(n: nat): (z: seq<nat>) {
    seq(n, _ => 0)
  }

  function Init(c: Config): Ghost
    requires c.tick > 0 && c.minSize <= c.maxSize
  {
    Ghost([], Zeros(NumTicks(c)), 0, seq(NumTicks(c), _ => Stat(0, 0)))
  }

  /** Distance of a present key from the MRU end. */
  function Distance(l: seq<Block>, k: Block): nat
    requires k in l
  {
    |l| - 1 - IndexOf(l, k)
  }

  function Bump(h: seq<nat>, i: nat): seq<nat> {
    if i < |h| then h[i := h[i] + 1] else h
  }

  function Record(c: Config, g: Ghost, k: Block, mode: Mode): seq<nat>
    requires c.tick > 0
  {
    match mode
    case Default => if k in g.list then Bump(g.hist, Bucket(c, Distance(g.list, k))) else g.hist
    case AsHit => Bump(g.hist, 0)
    case AsMiss => g.hist
    case Noop => g.hist
  }

  function AccessStep(c: Config, g: Ghost, k: Block, mode: Mode): Ghost
    requires c.tick > 0
  {
    g.(list := Touch(g.list, k, c.maxSize),
       hist := Record(c, g, k, mode),
       count := g.count + if mode == Noop then 0 else 1)
  }

  /** What rebuilding writes into `caches_stat`, in 32-bit arithmetic. */
  function BuildStat(hist: seq<nat>, count: nat, i: nat): Stat
    requires i < |hist|
  {
    Stat(W32(Sum(hist[..i + 1])), W32(count - Sum(hist[..i + 1])))
  }

  function Build(hist: seq<nat>, count: nat): seq<Stat> {
    seq(|hist|, i requires 0 <= i < |hist| => BuildStat(hist, count, i))
  }

  predicate UpToDate(g: Ghost, i: nat)
    requires i < |g.stats|
  {
    g.stats[i].hit + g.stats[i].miss == W32(g.count)
  }

  function QueryStep(g: Ghost, i: nat): Ghost
    requires i < |g.stats|
  {
    if UpToDate(g, i) then g else g.(stats := Build(g.hist, g.count))
  }

  /** The answer of a query; `None` stands for the failing assertion at the end of `get_stat`. */
  function Answer(g: Ghost, i: nat): Option<Stat>
    requires i < |g.stats| == |g.hist|
  {
    var g' := QueryStep(g, i);
    if UpToDate(g', i) then Some(g'.stats[i]) else None
  }

  function Step(c: Config, g: Ghost, e: Event): Ghost
    requires c.tick > 0 && c.minSize <= c.maxSize
  {
    match e
    case Access(k, mode) => AccessStep(c, g, k, mode)
    case Reset => g.(hist := Zeros(|g.hist|), count := 0)
    case Query(i) => if i < |g.stats| then QueryStep(g, i) else g
  }

  function Run(c: Config, es: seq<Event>): Ghost
    requires c.tick > 0 && c.minSize <= c.maxSize
  {
    if es == [] then Init(c) else Step(c, Run(c, es[..|es| - 1]), es[|es| - 1])
  }

  lemma RunSnoc(c: Config, es: seq<Event>, e: Event)
    requires c.tick > 0 && c.minSize <= c.maxSize
    ensures Run(c, es + [e]) == Step(c, Run(c, es), e)
  {
    assert (es + [e])[..|es|] == es;
  }

  // --- the invariant of every run ---

  lemma BumpSum(h: seq<nat>, i: nat, n: nat)
    requires n <= |h|
    ensures |Bump(h, i)| == |h|
    ensures Sum(Bump(h, i)[..n]) == Sum(h[..n]) + if i < n then 1 else 0
  {
    if i < |h| {
      SumBump(h, i, n);
    }
  }

  lemma BumpTotal(h: seq<nat>, i: nat)
    ensures |Bump(h, i)| == |h|
    ensures Sum(h) <= Sum(Bump(h, i)) <= Sum(h) + 1
  {
    BumpSum(h, i, |h|);
    assert h[..|h|] == h && Bump(h, i)[..|h|] == Bump(h, i);
  }

  lemma ZerosTotal(n: nat)
    ensures Sum(Zeros(n)) == 0
  {
    SumZeros(n, n);
    assert Zeros(n)[..n] == Zeros(n);
  }

  lemma AccessKeepsInv(c: Config, g: Ghost, k: Block, mode: Mode)
    requires Inv(c, g)
    ensures Inv(c, AccessStep(c, g, k, mode))
  {
    TouchDistinct(g.list, k, c.maxSize);
    BumpTotal(g.hist, 0);
    if k in g.list {
      BumpTotal(g.hist, Bucket(c, Distance(g.list, k)));
    }
  }

  lemma StepKeepsInv(c: Config, g: Ghost, e: Event)
    requires Inv(c, g)
    ensures Inv(c, Step(c, g, e))
  {
    match e
    case Access(k, mode) => AccessKeepsInv(c, g, k, mode);
    case Reset => ZerosTotal(|g.hist|);
    case Query(i) =>
  }

  lemma InitKeepsInv(c: Config)
    requires ValidConfig(c)
    ensures Inv(c, Init(c))
  {
    ZerosTotal(NumTicks(c));
  }

  lemma {:induction false} RunKeepsInv(c: Config, es: seq<Event>)
    requires ValidConfig(c)
    ensures Inv(c, Run(c, es))
  {
    if es == [] {
      InitKeepsInv(c);
    } else {
      RunKeepsInv(c, es[..|es| - 1]);
      StepKeepsInv(c, Run(c, es[..|es| - 1]), es[|es| - 1]);
    }
  }

  /** A cached key always falls into one of the histogram's buckets. */
  lemma BucketInRange(c: Config, d: nat)
    requires ValidConfig(c) && d < c.maxSize
    ensures Bucket(c, d) < NumTicks(c)
  {
    LargestSize(c);
    BucketIffWithin(c, d, NumTicks(c) - 1);
  }

  // --- the reference: one plain LRU cache per size, each with its own counters ---

  datatype Plain = Plain(list: seq<Block>, hits: nat, misses: nat)

  function PlainStep(cap: nat, p: Plain, e: Event): Plain {
    match e
    case Access(k, mode) =>
      var hit := match mode
                 case Default => k in p.list
                 case AsHit => true
                 case AsMiss => false
                 case Noop => false;
      Plain(Touch(p.list, k, cap),
            p.hits + if mode != Noop && hit then 1 else 0,
            p.misses + if mode != Noop && !hit then 1 else 0)
    case Reset => p.(hits := 0, misses := 0)
    case Query(_) => p
  }

  function PlainRun(cap: nat, es: seq<Event>): Plain {
    if es == [] then Plain([], 0, 0) else PlainStep(cap, PlainRun(cap, es[..|es| - 1]), es[|es| - 1])
  }

  /** The ghost cache and the plain cache of size `SizeOf(c, k)` tell the same story. */
  ghost predicate Agree(c: Config, g: Ghost, k: nat, p: Plain)
    requires Inv(c, g) && k < NumTicks(c)
  {
    && p.list == Newest(g.list, SizeOf(c, k))
    && p.hits == Sum(g.hist[..k + 1])
    && p.hits + p.misses == g.count
  }

  lemma PlainHitIffBucket(c: Config, g: Ghost, k: nat, key: Block)
    requires Inv(c, g) && k < NumTicks(c)
    ensures key in Newest(g.list, SizeOf(c, k))
       <==> key in g.list && Bucket(c, Distance(g.list, key)) <= k
  {
    if key in g.list {
      HitIffNear(g.list, key, SizeOf(c, k));
      BucketIffWithin(c, Distance(g.list, key), k);
    }
  }

  lemma RecordAgrees(c: Config, g: Ghost, k: nat, list: seq<Block>, key: Block, mode: Mode)
    requires Inv(c, g) && k < NumTicks(c) && list == Newest(g.list, SizeOf(c, k))
    ensures |Record(c, g, key, mode)| == |g.hist|
    ensures Sum(Record(c, g, key, mode)[..k + 1])
         == Sum(g.hist[..k + 1]) + if mode == AsHit || (mode == Default && key in list) then 1 else 0
  {
    PlainHitIffBucket(c, g, k, key);
    match mode
    case Default =>
      if key in g.list {
        BumpSum(g.hist, Bucket(c, Distance(g.list, key)), k + 1);
      }
    case AsHit => BumpSum(g.hist, 0, k + 1);
    case AsMiss =>
    case Noop =>
  }

  lemma AccessAgrees(c: Config, g: Ghost, k: nat, p: Plain, key: Block, mode: Mode)
    requires Inv(c, g) && k < NumTicks(c) && Agree(c, g, k, p)
    requires Inv(c, AccessStep(c, g, key, mode))
    ensures Agree(c, AccessStep(c, g, key, mode), k, PlainStep(SizeOf(c, k), p, Access(key, mode)))
  {
    SizesBelowMax(c, k);
    Inclusion(g.list, key, SizeOf(c, k), c.maxSize);
    RecordAgrees(c, g, k, p.list, key, mode);
  }

  lemma StepAgrees(c: Config, g: Ghost, k: nat, p: Plain, e: Event)
    requires Inv(c, g) && k < NumTicks(c) && Agree(c, g, k, p)
    requires Inv(c, Step(c, g, e))
    ensures Agree(c, Step(c, g, e), k, PlainStep(SizeOf(c, k), p, e))
  {
    match e
    case Access(key, mode) => AccessAgrees(c, g, k, p, key, mode);
    case Reset => SumZeros(k + 1, |g.hist|);
    case Query(_) =>
  }

  /**
   * The promise of the ghost cache.  For every sequence of accesses in any mode, resets
   * and queries, and for every simulated size, the prefix sum of the histogram is the
   * number of hits a plain LRU cache of that size scores on its own, and the rest of the
   * counted accesses are its misses.
   */
  lemma {:induction false} GhostMatchesPlain(c: Config, es: seq<Event>, k: nat)
    requires ValidConfig(c) && k < NumTicks(c)
    ensures var g := Run(c, es);
            var p := PlainRun(SizeOf(c, k), es);
            && |g.hist| == NumTicks(c)
            && p.list == Newest(g.list, SizeOf(c, k))
            && p.hits == Sum(g.hist[..k + 1])
            && p.misses == g.count - Sum(g.hist[..k + 1])
  {
    RunKeepsInv(c, es);
    if es == [] {
      SumZeros(k + 1, NumTicks(c));
    } else {
      var es' := es[..|es| - 1];
      GhostMatchesPlain(c, es', k);
      RunKeepsInv(c, es');
      StepAgrees(c, Run(c, es'), k, PlainRun(SizeOf(c, k), es'), es[|es| - 1]);
    }
  }

  lemma HitsAre(c: Config, es: seq<Event>, k: nat, h: seq<nat>, n: nat, p: Plain)
    requires ValidConfig(c) && k < NumTicks(c)
    requires h == Run(c, es).hist && n == Run(c, es).count && p == PlainRun(SizeOf(c, k), es)
    ensures |h| == NumTicks(c) && p.hits == Sum(h[..k + 1]) && p.hits + p.misses == n
  {
    GhostMatchesPlain(c, es, k);
  }

  /** Hit counts grow with the cache size and never exceed the number of counted accesses. */
  lemma HitsMonotone(c: Config, es: seq<Event>, j: nat, k: nat, p: Plain, q: Plain)
    requires ValidConfig(c) && j <= k < NumTicks(c)
    requires p == PlainRun(SizeOf(c, j), es) && q == PlainRun(SizeOf(c, k), es)
    ensures p.hits <= q.hits && p.hits + p.misses == q.hits + q.misses
  {
    hide Run, PlainRun, SizeOf;
    var h, n := Run(c, es).hist, Run(c, es).count;
    HitsAre(c, es, j, h, n, p);
    HitsAre(c, es, k, h, n, q);
    SumPrefixMonotone(h, j + 1, k + 1);
  }
}
