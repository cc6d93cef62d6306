/**
 * The statistics are rebuilt lazily: a query trusts the stored pair when its hits and
 * misses add up to the current access count.  Resetting clears the count but leaves the
 * stored pairs in place, so the test can be fooled.  This module says exactly when.
 */
module LazyStats {
  import opened Seqs
  import opened Words
  import opened Buckets
  import opened PlainLru
  import opened GhostSpec

  /** A run that also remembers what the stored statistics were last built from. */
  datatype Traced = Traced(g: Ghost, builtHist: seq<nat>, builtCount: nat, resetSince: bool)

  function TStep(c: Config, t: Traced, e: Event): Traced
    requires c.tick > 0 && c.minSize <= c.maxSize
  {
    var g' := Step(c, t.g, e);
    match e
    case Access(_, _) => t.(g := g')
    case Reset => t.(g := g', resetSince := true)
    case Query(i) =>
      if i < |t.g.stats| && !UpToDate(t.g, i) then Traced(g', t.g.hist, t.g.count, false) else t
  }

  function TRun(c: Config, es: seq<Event>): Traced
    requires c.tick > 0 && c.minSize <= c.maxSize
  {
    if es == [] then Traced(Init(c), Zeros(NumTicks(c)), 0, false)
    else TStep(c, TRun(c, es[..|es| - 1]), es[|es| - 1])
  }

  ghost predicate TInv(c: Config, t: Traced) {
    && Inv(c, t.g)
    && |t.builtHist| == NumTicks(c)
    && Sum(t.builtHist) <= t.builtCount
    && t.g.stats == Build(t.builtHist, t.builtCount)
    && (!t.resetSince ==> t.builtCount <= t.g.count && (t.builtCount == t.g.count ==> t.builtHist == t.g.hist))
  }

  lemma BuildOfZeros(n: nat)
    ensures Build(Zeros(n), 0) == seq(n, _ => Stat(0, 0))
  {
    forall i | 0 <= i < n
      ensures BuildStat(Zeros(n), 0, i) == Stat(0, 0)
    {
      SumZeros(i + 1, n);
    }
  }

  lemma TStepKeepsInv(c: Config, t: Traced, e: Event)
    requires TInv(c, t)
    ensures TInv(c, TStep(c, t, e)) && TStep(c, t, e).g == Step(c, t.g, e)
  {
    StepKeepsInv(c, t.g, e);
  }

  lemma {:induction false} TRunInv(c: Config, es: seq<Event>)
    requires ValidConfig(c)
    ensures TInv(c, TRun(c, es)) && TRun(c, es).g == Run(c, es)
  {
    if es == [] {
      RunKeepsInv(c, es);
      ZerosTotal(NumTicks(c));
      BuildOfZeros(NumTicks(c));
    } else {
      TRunInv(c, es[..|es| - 1]);
      TStepKeepsInv(c, TRun(c, es[..|es| - 1]), es[|es| - 1]);
    }
  }

  /** The query returns the true hit and miss counts. */
  ghost predicate Exact(g: Ghost, i: nat)
    requires i < |g.stats| == |g.hist| && Sum(g.hist[..i + 1]) <= g.count
  {
    Answer(g, i) == Some(Stat(Sum(g.hist[..i + 1]), g.count - Sum(g.hist[..i + 1])))
  }

  lemma PrefixBelowTotal(h: seq<nat>, i: nat, n: nat)
    requires i < |h| && Sum(h) <= n
    ensures Sum(h[..i + 1]) <= n
  {
    SumPrefixMonotone(h, i + 1, |h|);
    assert h[..|h|] == h;
  }

  lemma ExactUnlessFooled(c: Config, t: Traced, i: nat)
    requires TInv(c, t) && i < NumTicks(c)
    requires t.g.count < WORD && t.builtCount < WORD
    requires !(t.resetSince && t.builtCount == t.g.count && t.g.count > 0)
    ensures Sum(t.g.hist[..i + 1]) <= t.g.count && Exact(t.g, i)
  {
    PrefixBelowTotal(t.g.hist, i, t.g.count);
    PrefixBelowTotal(t.builtHist, i, t.builtCount);
    assert t.g.stats[i] == BuildStat(t.builtHist, t.builtCount, i);
    assert UpToDate(t.g, i) <==> t.builtCount == t.g.count;
  }

  // --- a caller's view of the history, and when it guarantees an exact answer ---

  datatype View = View(builtCount: nat, count: nat, resetSince: bool)

  function ViewOf(c: Config, es: seq<Event>): View
    requires c.tick > 0 && c.minSize <= c.maxSize
  {
    var t := TRun(c, es);
    View(t.builtCount, t.g.count, t.resetSince)
  }

  ghost predicate ExactAfter(c: Config, es: seq<Event>, i: nat)
    requires ValidConfig(c) && i < NumTicks(c)
  {
    var g := Run(c, es);
    i < |g.stats| == |g.hist| && Sum(g.hist[..i + 1]) <= g.count && Exact(g, i)
  }

  ghost predicate AlwaysExact(c: Config, v: View, i: nat)
    requires ValidConfig(c) && i < NumTicks(c)
  {
    forall es :: ViewOf(c, es) == v ==> ExactAfter(c, es, i)
  }

  /** Reset since the last build, and just as many accesses counted again. */
  predicate Fooled(v: View) {
    v.resetSince && v.builtCount == v.count && v.count > 0
  }

  function Many(es: seq<Event>, e: Event, n: nat): seq<Event> {
    if n == 0 then es else Many(es, e, n - 1) + [e]
  }

  lemma TRunSnoc(c: Config, es: seq<Event>, e: Event)
    requires ValidConfig(c)
    ensures TRun(c, es + [e]) == TStep(c, TRun(c, es), e)
  {
    assert (es + [e])[..|es|] == es;
  }

  /** `n` hits at distance zero since the start, and nothing built yet. */
  ghost predicate OnlyHits(c: Config, t: Traced, n: nat)
    requires ValidConfig(c)
  {
    && t.g.hist == Zeros(NumTicks(c))[0 := n]
    && t.g.count == n
    && t.g.stats == seq(NumTicks(c), _ => Stat(0, 0))
  }

  lemma OneHit(c: Config, t: Traced, n: nat)
    requires ValidConfig(c) && OnlyHits(c, t, n)
    ensures OnlyHits(c, TStep(c, t, Access(0, AsHit)), n + 1)
  {
    assert Bump(t.g.hist, 0) == Zeros(NumTicks(c))[0 := n + 1];
  }

  lemma NoHits(c: Config)
    requires ValidConfig(c)
    ensures OnlyHits(c, TRun(c, []), 0)
  {
    assert Zeros(NumTicks(c))[0 := 0] == Zeros(NumTicks(c));
  }

  lemma {:induction false} ManyHits(c: Config, n: nat)
    requires ValidConfig(c)
    ensures OnlyHits(c, TRun(c, Many([], Access(0, AsHit), n)), n)
  {
    hide TRun, TStep, OnlyHits;
    if n == 0 {
      NoHits(c);
    } else {
      ManyHits(c, n - 1);
      var es := Many([], Access(0, AsHit), n - 1);
      TRunSnoc(c, es, Access(0, AsHit));
      OneHit(c, TRun(c, es), n - 1);
    }
  }

  lemma {:induction false} ManyMisses(c: Config, es: seq<Event>, n: nat)
    requires ValidConfig(c) && TRun(c, es).g.count == 0
    ensures var s := TRun(c, es);
            var t := TRun(c, Many(es, Access(0, AsMiss), n));
            t == s.(g := t.g) && t.g.stats == s.g.stats && t.g.hist == s.g.hist && t.g.count == n
  {
    hide TRun;
    if n > 0 {
      ManyMisses(c, es, n - 1);
      TRunSnoc(c, Many(es, Access(0, AsMiss), n - 1), Access(0, AsMiss));
    }
  }

  function FoolingTrace(n: nat, i: nat): seq<Event> {
    Many(Many([], Access(0, AsHit), n) + [Query(i)] + [Reset], Access(0, AsMiss), n)
  }

  lemma FirstSlotOnly(m: nat, n: nat, k: nat)
    requires 0 < k <= m
    ensures Sum(Zeros(m)[0 := n][..k]) == n
  {
    var z := Zeros(m)[0 := n];
    if k == 1 {
      assert z[..1] == [n];
      assert Sum([n]) == Sum([n][..0]) + n;
    } else {
      FirstSlotOnly(m, n, k - 1);
      SumAppend(z, k - 1);
    }
  }

  /** After `n` hits and a query the stored pairs are those of `n` hits at every size. */
  lemma HitsThenQuery(c: Config, n: nat, i: nat, t: Traced)
    requires ValidConfig(c) && 0 < n < WORD && i < NumTicks(c) && OnlyHits(c, t, n)
    ensures var u := TStep(c, t, Query(i));
            && u.builtCount == n && !u.resetSince
            && |u.g.hist| == |u.g.stats| == NumTicks(c) && u.g.stats[i] == Stat(n, 0)
  {
    hide Sum;
    var h := Zeros(NumTicks(c))[0 := n];
    FirstSlotOnly(NumTicks(c), n, i + 1);
    assert Build(h, n)[i] == BuildStat(h, n, i);
  }

  /** All hits, a query, a reset, then as many misses: the query still reports all hits. */
  lemma FoolingTraceFools(c: Config, n: nat, i: nat)
    requires ValidConfig(c) && 0 < n < WORD && i < NumTicks(c)
    ensures ViewOf(c, FoolingTrace(n, i)) == View(n, n, true)
    ensures var g := Run(c, FoolingTrace(n, i));
            && |g.hist| == |g.stats| == NumTicks(c)
            && Sum(g.hist[..i + 1]) == 0 && g.count == n
            && Answer(g, i) == Some(Stat(n, 0))
  {
    hide TRun, Run, Many, Sum;
    var es1 := Many([], Access(0, AsHit), n);
    ManyHits(c, n);
    TRunSnoc(c, es1, Query(i));
    HitsThenQuery(c, n, i, TRun(c, es1));
    TRunSnoc(c, es1 + [Query(i)], Reset);
    ManyMisses(c, es1 + [Query(i)] + [Reset], n);
    TRunInv(c, FoolingTrace(n, i));
    SumZeros(i + 1, NumTicks(c));
  }

  /**
   * For counts below 2^32: knowing only the count at the last build, the count now and
   * whether a reset came in between, an exact answer is guaranteed iff the test cannot
   * have been fooled.
   */
  lemma ExactIffNotFooled(c: Config, v: View, i: nat)
    requires ValidConfig(c) && i < NumTicks(c)
    requires v.builtCount < WORD && v.count < WORD
    ensures AlwaysExact(c, v, i) <==> !Fooled(v)
  {
    if Fooled(v) {
      FoolingTraceFools(c, v.count, i);
      assert ViewOf(c, FoolingTrace(v.count, i)) == v;
      assert !ExactAfter(c, FoolingTrace(v.count, i), i);
    } else {
      forall es | ViewOf(c, es) == v
        ensures ExactAfter(c, es, i)
      {
        TRunInv(c, es);
        ExactUnlessFooled(c, TRun(c, es), i);
      }
    }
  }

  /**
   * So a query after any fooling-free history below 2^32 accesses returns the plain LRU
   * cache's own hits and misses.
   */
  lemma QueryIsPlainLru(c: Config, es: seq<Event>, i: nat)
    requires ValidConfig(c) && i < NumTicks(c)
    requires !Fooled(ViewOf(c, es)) && ViewOf(c, es).builtCount < WORD && ViewOf(c, es).count < WORD
    ensures var g := Run(c, es);
            var p := PlainRun(SizeOf(c, i), es);
            i < |g.stats| == |g.hist| && Answer(g, i) == Some(Stat(p.hits, p.misses))
  {
    hide TRun, Run, PlainRun, SizeOf, Sum, BuildStat;
    TRunInv(c, es);
    ExactUnlessFooled(c, TRun(c, es), i);
    GhostMatchesPlain(c, es, i);
  }

  // --- the answer of every query, at any number of accesses ---

  /** How much of the history the stored pairs were last built from. */
  function BuiltAfter(c: Config, es: seq<Event>): (n: nat)
    requires c.tick > 0 && c.minSize <= c.maxSize
    ensures n <= |es|
  {
    if es == [] then 0
    else
      var before, e := es[..|es| - 1], es[|es| - 1];
      if e.Query? && e.idx < |Run(c, before).stats| && !UpToDate(Run(c, before), e.idx) then |before|
      else BuiltAfter(c, before)
  }

  lemma {:induction false} BuiltFrom(c: Config, es: seq<Event>)
    requires ValidConfig(c)
    ensures var t := TRun(c, es);
            var b := Run(c, es[..BuiltAfter(c, es)]);
            t.g == Run(c, es) && t.builtHist == b.hist && t.builtCount == b.count
  {
    hide UpToDate, Step, Build;
    TRunInv(c, es);
    if es != [] {
      var before := es[..|es| - 1];
      BuiltFrom(c, before);
      var n := BuiltAfter(c, before);
      assert es[..n] == before[..n];
    } else {
      assert es[..0] == [];
    }
  }

  /** The scores of a plain cache as 32-bit counters hold them. */
  function Stored(p: Plain): Stat {
    Stat(W32(p.hits), W32(p.misses))
  }

  /** The stored scores add up to the stored number of accesses, as the assertion demands. */
  predicate AddsUp(p: Plain) {
    W32(p.hits) <= W32(p.hits + p.misses)
  }

  lemma AddsUpMeans(p: Plain, n: nat)
    ensures AddsUp(p) <==> W32(p.hits) + W32(p.misses) == W32(p.hits + p.misses)
    ensures W32(p.hits) + W32(p.misses) == W32(n) <==> AddsUp(p) && W32(p.hits + p.misses) == W32(n)
  {
    var sum := W32(p.hits) + W32(p.misses);
    WrapSum(p.hits, p.misses);
    assert sum == W32(sum) || sum == W32(sum) + WORD;
    hide W32;
  }

  lemma StoredPair(c: Config, es: seq<Event>, i: nat)
    requires ValidConfig(c) && i < NumTicks(c)
    ensures var g := Run(c, es);
            && i < |g.stats| == |g.hist| == NumTicks(c)
            && g.stats[i] == Stored(PlainRun(SizeOf(c, i), es[..BuiltAfter(c, es)]))
            && BuildStat(g.hist, g.count, i) == Stored(PlainRun(SizeOf(c, i), es))
  {
    hide Run, PlainRun, SizeOf, Sum, BuiltAfter, TRun;
    TRunInv(c, es);
    BuiltFrom(c, es);
    GhostMatchesPlain(c, es, i);
    GhostMatchesPlain(c, es[..BuiltAfter(c, es)], i);
    var t := TRun(c, es);
    assert t.g.stats[i] == BuildStat(t.builtHist, t.builtCount, i);
  }

  lemma CountIsTotal(c: Config, es: seq<Event>, i: nat)
    requires ValidConfig(c) && i < NumTicks(c)
    ensures var p := PlainRun(SizeOf(c, i), es);
            Run(c, es).count == p.hits + p.misses
  {
    GhostMatchesPlain(c, es, i);
  }

  /** What a query answers when the plain cache has scored `p`, and had scored `q` at the last rebuild. */
  function QueryResult(p: Plain, q: Plain): Option<Stat> {
    if AddsUp(q) && W32(q.hits + q.misses) == W32(p.hits + p.misses) then Some(Stored(q))
    else if AddsUp(p) then Some(Stored(p)) else None
  }

  /**
   * What a query answers after any history, however long.  With `p` the plain cache of that
   * size and `q` the same cache when the pairs were last built: the old scores if they add up
   * and the number of accesses then and now is the same in 32 bits, else the new ones if they
   * add up, else the closing assertion fails.
   */
  lemma AnswerOverRuns(c: Config, es: seq<Event>, i: nat)
    requires ValidConfig(c) && i < NumTicks(c)
    ensures var g := Run(c, es);
            var p := PlainRun(SizeOf(c, i), es);
            var q := PlainRun(SizeOf(c, i), es[..BuiltAfter(c, es)]);
            && i < |g.stats| == |g.hist|
            && Answer(g, i) == QueryResult(p, q)
  {
    hide Run, PlainRun, SizeOf, BuiltAfter, BuildStat, W32, AddsUp;
    var g := Run(c, es);
    var p, q := PlainRun(SizeOf(c, i), es), PlainRun(SizeOf(c, i), es[..BuiltAfter(c, es)]);
    StoredPair(c, es, i);
    CountIsTotal(c, es, i);
    AddsUpMeans(q, g.count);
    AddsUpMeans(p, g.count);
    assert Build(g.hist, g.count)[i] == BuildStat(g.hist, g.count, i);
  }

  /** The closing assertion holds iff one of the two answers adds up; below 2^32 accesses it does. */
  lemma AssertionHoldsIff(c: Config, es: seq<Event>, i: nat)
    requires ValidConfig(c) && i < NumTicks(c)
    ensures var g := Run(c, es);
            var p := PlainRun(SizeOf(c, i), es);
            var q := PlainRun(SizeOf(c, i), es[..BuiltAfter(c, es)]);
            && i < |g.stats| == |g.hist|
            && (Answer(g, i).Some? <==>
                  || AddsUp(p)
                  || (AddsUp(q) && W32(q.hits + q.misses) == W32(p.hits + p.misses)))
            && (p.hits + p.misses < WORD ==> Answer(g, i).Some?)
  {
    hide Run, PlainRun, SizeOf, BuiltAfter, Answer;
    AnswerOverRuns(c, es, i);
  }

  lemma {:induction false} ManyScores(c: Config, cap: nat, es: seq<Event>, mode: Mode, n: nat)
    requires c.tick > 0 && c.minSize <= c.maxSize && mode in [AsHit, AsMiss]
    ensures var p, q := PlainRun(cap, es), PlainRun(cap, Many(es, Access(0, mode), n));
            && q.hits == p.hits + (if mode == AsHit then n else 0)
            && q.misses == p.misses + (if mode == AsMiss then n else 0)
    ensures BuiltAfter(c, Many(es, Access(0, mode), n)) == BuiltAfter(c, es)
  {
    hide Touch;
    if n > 0 {
      ManyScores(c, cap, es, mode, n - 1);
      var before := Many(es, Access(0, mode), n - 1);
      assert (before + [Access(0, mode)])[..|before|] == before;
    }
  }

  lemma AtFirst(c: Config, cap: nat)
    requires c.tick > 0 && c.minSize <= c.maxSize
    ensures PlainRun(cap, []) == Plain([], 0, 0) && BuiltAfter(c, []) == 0
  {
  }

  function HitsThenMisses(n: nat, m: nat): seq<Event> {
    Many(Many([], Access(0, AsHit), n), Access(0, AsMiss), m)
  }

  lemma HitsFirst(n: nat, m: nat)
    ensures HitsThenMisses(n, m) == Many(Many([], Access(0, AsHit), n), Access(0, AsMiss), m)
  {
  }

  lemma Decide(p: Plain, q: Plain)
    requires q.hits == q.misses == 0
    ensures !(AddsUp(q) && W32(q.hits + q.misses) == W32(p.hits + p.misses)) && !AddsUp(p)
       <==> 0 < W32(p.hits + p.misses) < W32(p.hits)
  {
    assert W32(0) == 0;
    hide W32;
  }

  /** After `n` hits and `m` misses, and no query before, the assertion fails at every size or at none. */
  lemma FailsAfterIff(c: Config, i: nat, n: nat, m: nat)
    requires ValidConfig(c) && i < NumTicks(c)
    ensures var g := Run(c, HitsThenMisses(n, m));
            && i < |g.stats| == |g.hist|
            && (Answer(g, i) == None <==> 0 < W32(n + m) < W32(n))
  {
    hide Run, PlainRun, Many, HitsThenMisses, BuiltAfter, W32, AddsUp, Stored, SizeOf, Answer, NumTicks;
    var hits, es := Many([], Access(0, AsHit), n), HitsThenMisses(n, m);
    AtFirst(c, SizeOf(c, i));
    ManyScores(c, SizeOf(c, i), [], AsHit, n);
    ManyScores(c, SizeOf(c, i), hits, AsMiss, m);
    HitsFirst(n, m);
    assert es[..0] == [];
    AnswerOverRuns(c, es, i);
    Decide(PlainRun(SizeOf(c, i), es), PlainRun(SizeOf(c, i), []));
  }

  /** So it does fail: 2^32 - 1 hits and two misses leave no acceptable answer at any size. */
  lemma AssertionFails(c: Config, i: nat, n: nat)
    requires ValidConfig(c) && i < NumTicks(c) && n == WORD - 1
    ensures var g := Run(c, HitsThenMisses(n, 2));
            i < |g.stats| == |g.hist| && Answer(g, i) == None
  {
    hide Run, Answer, HitsThenMisses;
    FailsAfterIff(c, i, n, 2);
  }
}
