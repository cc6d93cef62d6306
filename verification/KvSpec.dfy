/** Traces of the key-value ghost cache: what its sizes are, and what its curve therefore says. */
module KvSpec {
  import opened Seqs
  import opened Words
  import opened Buckets
  import opened PlainLru
  import opened GhostSpec
  import opened LazyStats
  import opened SamplingSpec
  import opened CurveSpec

  /** `idhash`. */
  function Identity(k: Block): nat {
    k
  }

  datatype KvEvent = KvAccess(key: Block, size: nat, mode: Mode) | KvReset | KvQuery(idx: nat)

  function EventOf(e: KvEvent): Event {
    match e
    case KvAccess(k, _, mode) => Access(k, mode)
    case KvReset => Reset
    case KvQuery(i) => Query(i)
  }

  function Events(ts: seq<KvEvent>): seq<Event> {
    if ts == [] then [] else Events(ts[..|ts| - 1]) + [EventOf(ts[|ts| - 1])]
  }

  /** The size each sampled key was last accessed with. */
  function LatestSizes(shift: nat, ts: seq<KvEvent>): map<Block, nat>
    requires shift <= 32
  {
    if ts == [] then map[]
    else
      var m, e := LatestSizes(shift, ts[..|ts| - 1]), ts[|ts| - 1];
      if e.KvAccess? && IsSampled(Identity, shift, e.key) then m[e.key := e.size] else m
  }

  /** The state of the ghost cache after a key-value trace. */
  function KvRun(c: Config, shift: nat, ts: seq<KvEvent>): Ghost
    requires c.tick > 0 && c.minSize <= c.maxSize && shift <= 32
  {
    SampledRun(c, Identity, shift, Events(ts))
  }

  lemma EventsStep(ts: seq<KvEvent>)
    requires ts != []
    ensures var es := Events(ts);
            es != [] && es[..|es| - 1] == Events(ts[..|ts| - 1]) && es[|es| - 1] == EventOf(ts[|ts| - 1])
  {
    var r := Events(ts[..|ts| - 1]);
    assert (r + [EventOf(ts[|ts| - 1])])[..|r|] == r;
  }

  /** One event more is one step more. */
  lemma KvRunStep(c: Config, shift: nat, ts: seq<KvEvent>, e: KvEvent)
    requires c.tick > 0 && c.minSize <= c.maxSize && shift <= 32
    ensures KvRun(c, shift, ts + [e]) == SampledStep(c, Identity, shift, KvRun(c, shift, ts), EventOf(e))
  {
    EventsStep(ts + [e]);
    assert (ts + [e])[..|ts|] == ts;
  }

  /** One event more, as the ghost cache underneath sees it. */
  lemma KvSnoc(shift: nat, ts: seq<KvEvent>, e: KvEvent)
    requires shift <= 32
    ensures var skipped := e.KvAccess? && !IsSampled(Identity, shift, e.key);
            && Subtrace(Identity, shift, Events(ts + [e]))
               == Subtrace(Identity, shift, Events(ts)) + (if skipped then [] else [EventOf(e)])
            && LatestSizes(shift, ts + [e])
               == if e.KvAccess? && !skipped then LatestSizes(shift, ts)[e.key := e.size] else LatestSizes(shift, ts)
  {
    assert (ts + [e])[..|ts|] == ts;
    SubtraceSnoc(Identity, shift, Events(ts), EventOf(e));
  }

  /** An access in terms of the code's test, and of the value of the key. */
  lemma KvAccessSampled(shift: nat, ts: seq<KvEvent>, k: Block, size: nat, mode: Mode)
    requires shift <= 32
    ensures var after := ts + [KvAccess(k, size, mode)];
            var sampled := k < Pow2(32 - shift);
            && (sampled <==> Div(k, Pow2(32 - shift)) == 0)
            && Subtrace(Identity, shift, Events(after))
               == Subtrace(Identity, shift, Events(ts)) + (if sampled then [Access(k, mode)] else [])
            && LatestSizes(shift, after)
               == if sampled then LatestSizes(shift, ts)[k := size] else LatestSizes(shift, ts)
  {
    hide Subtrace, Events, LatestSizes, Pow2, Div;
    SampledByShift(Identity, shift, k);
    KvSnoc(shift, ts, KvAccess(k, size, mode));
  }

  /** Every key the cache still lists has a size. */
  lemma {:induction false} ListedKeysHaveSizes(c: Config, shift: nat, ts: seq<KvEvent>)
    requires ValidConfig(c) && shift <= 32
    ensures Distinct(KvRun(c, shift, ts).list)
    ensures forall k :: k in KvRun(c, shift, ts).list ==> k in LatestSizes(shift, ts)
  {
    hide Touch, Bucket, Bump, IsSampled, Build, Record;
    if ts != [] {
      var before, e := ts[..|ts| - 1], ts[|ts| - 1];
      ListedKeysHaveSizes(c, shift, before);
      assert ts == before + [e];
      KvRunStep(c, shift, before, e);
      KvSnoc(shift, before, e);
      if e.KvAccess? {
        TouchDistinct(KvRun(c, shift, before).list, e.key, c.maxSize);
      }
    }
  }

  lemma NewestMembers(l: seq<Block>, n: nat)
    ensures forall k :: k in Newest(l, n) ==> k in l
  {
  }

  /** What the `i`-th point of the curve has to be: all keys a plain LRU cache of its count holds have a size. */
  ghost predicate PlainKvPoint(c: Config, shift: nat, ts: seq<KvEvent>, i: nat, point: Point)
    requires shift <= 32
  {
    var p, sizes := PlainRun(SizeOf(c, i), Subtrace(Identity, shift, Events(ts))), LatestSizes(shift, ts);
    && |p.list| == SizeOf(c, i)
    && (forall k :: k in p.list ==> k in sizes)
    && point == PlainPoint(shift, SizeOf(c, i), p, sizes)
  }

  /** The whole curve, or that there is none, with `n` keys listed. */
  ghost predicate PlainKvCurve(c: Config, shift: nat, ts: seq<KvEvent>, n: nat, points: Option<seq<Point>>)
    requires c.tick > 0 && shift <= 32
  {
    && (points.Some? <==> Admissible(c, n))
    && (points.Some? ==>
          && |points.value| == Reached(c, n)
          && forall i :: 0 <= i < |points.value| ==> PlainKvPoint(c, shift, ts, i, points.value[i]))
  }

  /** The statistics of the sampled events can be trusted. */
  ghost predicate Trustworthy(c: Config, shift: nat, ts: seq<KvEvent>)
    requires c.tick > 0 && c.minSize <= c.maxSize && shift <= 32
  {
    var v := ViewOf(c, Subtrace(Identity, shift, Events(ts)));
    !Fooled(v) && v.builtCount < WORD && v.count < WORD
  }

  lemma KvPoint(c: Config, shift: nat, ts: seq<KvEvent>, sizes: map<Block, nat>, i: nat)
    requires ValidConfig(c) && c.maxSize < WORD && shift <= 32 && Trustworthy(c, shift, ts)
    requires sizes == LatestSizes(shift, ts)
    ensures |KvRun(c, shift, ts).hist| == |KvRun(c, shift, ts).stats| == NumTicks(c)
    ensures var g := KvRun(c, shift, ts);
            var o := Curve(c, shift, g, sizes, |g.list|);
            && (o.points.Some? <==> Admissible(c, |g.list|))
            && (o.points.Some? ==> |o.points.value| == Reached(c, |g.list|))
            && (o.points.Some? && i < Reached(c, |g.list|) ==> PlainKvPoint(c, shift, ts, i, o.points.value[i]))
  {
    hide Run, PlainRun, Curve, Reached, SizeOf, Admissible, ViewOf, KvSum, Pow2, SampledRun, Subtrace, Events,
         LatestSizes, Newest;
    var sub := Subtrace(Identity, shift, Events(ts));
    SampledRunIsSubtraceRun(c, Identity, shift, Events(ts));
    CurveMatchesPlain(c, shift, sub, sizes, i);
    if i < NumTicks(c) {
      GhostMatchesPlain(c, sub, i);
      ListedKeysHaveSizes(c, shift, ts);
      NewestMembers(KvRun(c, shift, ts).list, SizeOf(c, i));
    }
    RunKeepsInv(c, sub);
    ReachedBelowTicks(c, |Run(c, sub).list|);
  }

  /**
   * From the trace to the curve: whatever keys, sizes, modes, resets and queries came in, if
   * the sizes admit a curve its `i`-th point holds the scaled count, the scaled total of the
   * latest sizes of exactly the sampled keys a plain LRU cache of that count would hold, all
   * of which have one, and that cache's hits and misses; otherwise there is no curve.
   */
  lemma KvCurveMatchesPlain(c: Config, shift: nat, ts: seq<KvEvent>)
    requires ValidConfig(c) && c.maxSize < WORD && shift <= 32 && Trustworthy(c, shift, ts)
    ensures |KvRun(c, shift, ts).hist| == |KvRun(c, shift, ts).stats| == NumTicks(c)
    ensures var g := KvRun(c, shift, ts);
            PlainKvCurve(c, shift, ts, |g.list|, Curve(c, shift, g, LatestSizes(shift, ts), |g.list|).points)
  {
    hide KvRun, Curve, Reached, Admissible, Trustworthy, PlainKvPoint, LatestSizes;
    var g, sizes := KvRun(c, shift, ts), LatestSizes(shift, ts);
    KvPoint(c, shift, ts, sizes, 0);
    var o := Curve(c, shift, g, sizes, |g.list|);
    forall i | 0 <= i && o.points.Some? && i < |o.points.value|
      ensures PlainKvPoint(c, shift, ts, i, o.points.value[i])
    {
      KvPoint(c, shift, ts, sizes, i);
    }
  }

  /** The sizes (96, 64, 352), scaled by five bits, are accepted; the first sampled key then fails an assertion. */
  lemma KvFailingCurve(k: Block, size: nat)
    requires IsSampled(Identity, 5, k)
    ensures ValidSampling(Config(96, 64, 352), 5) && ScaleConfig(Config(96, 64, 352), 5) == Config(3, 2, 11)
    ensures var c := Config(3, 2, 11);
            var ts := [KvAccess(k, size, Default)];
            var g := KvRun(c, 5, ts);
            |g.hist| == |g.stats| == NumTicks(c) && Curve(c, 5, g, LatestSizes(5, ts), |g.list|).points.None?
  {
    hide Curve, Pow2, IsSampled, ScaleConfig, Subtrace, Events, Run, LatestSizes;
    var ts := [KvAccess(k, size, Default)];
    ScaledArguments();
    OneKey(k, size);
    SampledRunIsSubtraceRun(Config(3, 2, 11), Identity, 5, Events(ts));
    FailingCurve(5, k, LatestSizes(5, ts));
  }

  lemma ScaledArguments()
    ensures ValidSampling(Config(96, 64, 352), 5) && ScaleConfig(Config(96, 64, 352), 5) == Config(3, 2, 11)
  {
    assert Pow2(5) == 32;
    hide Pow2;
  }

  lemma OneKey(k: Block, size: nat)
    requires IsSampled(Identity, 5, k)
    ensures Subtrace(Identity, 5, Events([KvAccess(k, size, Default)])) == [Access(k, Default)]
  {
    hide Pow2, IsSampled;
    EventsStep([KvAccess(k, size, Default)]);
    assert [KvAccess(k, size, Default)][..0] == [];
    SubtraceSnoc(Identity, 5, [], Access(k, Default));
    assert [] + [Access(k, Default)] == [Access(k, Default)];
  }
}
