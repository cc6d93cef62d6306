/** The curve of a key-value ghost cache: one point for each simulated size the list has reached. */
module CurveSpec {
  import opened Seqs
  import opened Words
  import opened Buckets
  import opened PlainLru
  import opened GhostSpec
  import opened LazyStats

  /** Key count, total size of those keys, and the score of a cache of that many keys. */
  datatype Point = Point(count: nat, size: nat, stat: Stat)

  datatype Outcome = Outcome(g: Ghost, points: Option<seq<Point>>)

  function SizeIn(sizes: map<Block, nat>, k: Block): nat {
    if k in sizes then sizes[k] else 0
  }

  function KvSum(l: seq<Block>, sizes: map<Block, nat>): nat {
    if l == [] then 0 else SizeIn(sizes, l[0]) + KvSum(l[1..], sizes)
  }

  lemma KvSumOneMore(l: seq<Block>, sizes: map<Block, nat>, n: nat)
    requires n < |l|
    ensures KvSum(Newest(l, n + 1), sizes) == KvSum(Newest(l, n), sizes) + SizeIn(sizes, l[|l| - 1 - n])
  {
    var a := Newest(l, n + 1);
    assert a[0] == l[|l| - 1 - n];
    assert a[1..] == Newest(l, n);
  }

  /** Shifting an already wrapped word left is shifting the true value. */
  lemma WrapShift(x: nat, p: nat)
    ensures W32(W32(x) * p) == W32(x * p)
  {
    var q := x / WORD;
    assert x == q * WORD + W32(x);
    assert x * p == (q * p) * WORD + W32(x) * p by {
      assert (q * WORD + W32(x)) * p == q * WORD * p + W32(x) * p;
      assert q * WORD * p == (q * p) * WORD;
    }
    AddMultiple(W32(x) * p, q * p);
  }

  lemma AddMultiple(y: nat, m: nat)
    ensures W32(m * WORD + y) == W32(y)
  {
  }

  function ScaledPoint(shift: nat, l: seq<Block>, sizes: map<Block, nat>, n: nat, stat: Stat): Point {
    Point(W32(n * Pow2(shift)), W32(KvSum(Newest(l, n), sizes) * Pow2(shift)), stat)
  }

  /** The test that picks the sizes, in unsigned arithmetic. */
  predicate OnGrid(c: Config, n: nat)
    requires c.tick > 0
  {
    W32(n - c.minSize) % c.tick == 0
  }

  /** The traversal after its first `n` keys; no points once an assertion has failed. */
  function Curve(c: Config, shift: nat, g: Ghost, sizes: map<Block, nat>, n: nat): Outcome
    requires c.tick > 0 && c.minSize <= c.maxSize
    requires |g.hist| == |g.stats| == NumTicks(c)
    ensures |Curve(c, shift, g, sizes, n).g.hist| == |Curve(c, shift, g, sizes, n).g.stats| == NumTicks(c)
    ensures Curve(c, shift, g, sizes, n).g == g.(stats := Curve(c, shift, g, sizes, n).g.stats)
  {
    if n == 0 then Outcome(g, Some([]))
    else
      var o := Curve(c, shift, g, sizes, n - 1);
      if o.points.None? || !OnGrid(c, n) then o
      else if n < c.minSize || IndexOfSize(c, n) >= NumTicks(c) then o.(points := None)
      else
        var i := IndexOfSize(c, n);
        match Answer(o.g, i)
        case None => Outcome(QueryStep(o.g, i), None)
        case Some(stat) =>
          Outcome(QueryStep(o.g, i), Some(o.points.value + [ScaledPoint(shift, g.list, sizes, n, stat)]))
  }

  // --- when the test is right ---

  /** How far below a multiple of the tick 2^32 lies, counted from one. */
  function Gap(c: Config): nat
    requires c.tick > 0
  {
    if WORD % c.tick == 0 then c.tick else WORD % c.tick
  }

  lemma OnGridBelow(c: Config, j: nat)
    requires c.tick > 0 && 0 < j < WORD && (WORD - j) % c.tick == 0
    ensures Gap(c) <= j
  {
    NoneInside(WORD, c.tick, (WORD - j) / c.tick, j);
  }

  /** The multiples of `t` below `x` are at least `x % t` away, or `t` when `x` is one itself. */
  lemma NoneInside(x: nat, t: nat, p: nat, j: nat)
    requires t > 0 && 0 < j && x - j == p * t
    ensures (if x % t == 0 then t else x % t) <= j
  {
    var q, r := x / t, x % t;
    assert x == q * t + r;
    if p > q {
      MultipleMonotone(q + 1, p, t);
    } else if p < q {
      MultipleMonotone(p + 1, q, t);
    }
  }

  lemma GapOnGrid(c: Config)
    requires c.tick > 0 && Gap(c) < WORD
    ensures (WORD - Gap(c)) % c.tick == 0
  {
    var t := c.tick;
    var q, r := WORD / t, WORD % t;
    assert WORD == q * t + r;
    if r == 0 {
      ProductPositive(q, t, WORD);
      assert WORD - t == (q - 1) * t;
      Multiple(q - 1, t);
    } else {
      Multiple(q, t);
    }
  }

  lemma ProductPositive(q: nat, t: nat, x: nat)
    requires x == q * t && x > 0
    ensures q > 0
  {
  }

  lemma Multiple(q: nat, t: nat)
    requires t > 0
    ensures (q * t) % t == 0
  {
    DivisionUnique(q * t, t, q, 0);
  }

  /**
   * Below the smallest simulated size the unsigned test never fires, whatever the list, iff
   * that size is at most the gap.  For a tick that is a power of two the gap is the tick.
   */
  lemma NeverFiresEarlyIff(c: Config)
    requires c.tick > 0 && c.minSize < WORD
    ensures (forall n :: 0 < n < c.minSize ==> !OnGrid(c, n)) <==> c.minSize <= Gap(c)
  {
    hide Gap;
    forall n | 0 < n < c.minSize
      ensures OnGrid(c, n) ==> Gap(c) < c.minSize
    {
      assert W32(n - c.minSize) == WORD - (c.minSize - n);
      if OnGrid(c, n) {
        OnGridBelow(c, c.minSize - n);
      }
    }
    if Gap(c) < c.minSize {
      GapPositive(c);
      var n := c.minSize - Gap(c);
      GapOnGrid(c);
      assert W32(n - c.minSize) == WORD - Gap(c);
      assert OnGrid(c, n);
    }
  }

  /** What a caller can check: a list of `n` keys stops short of the first size picked too early. */
  predicate Admissible(c: Config, n: nat)
    requires c.tick > 0
  {
    c.minSize <= Gap(c) || n <= (c.minSize - Gap(c) - 1) % c.tick
  }

  /** The sizes picked too early lie below the smallest one by the gap and some ticks. */
  lemma EarlyIsGapAndTicks(c: Config, n: nat) returns (m: nat)
    requires c.tick > 0 && 0 < n < c.minSize < WORD && OnGrid(c, n)
    ensures c.minSize - n == Gap(c) + m * c.tick
  {
    var j, t := c.minSize - n, c.tick;
    assert W32(n - c.minSize) == WORD - j;
    hide W32, Gap;
    OnGridBelow(c, j);
    GapPositive(c);
    GapOnGrid(c);
    var a, b := (WORD - Gap(c)) / t, (WORD - j) / t;
    assert WORD - Gap(c) == a * t && WORD - j == b * t;
    m := Subtract(a, b, t);
  }

  lemma Subtract(a: nat, b: nat, t: nat) returns (m: nat)
    requires t > 0 && a * t >= b * t
    ensures m * t == a * t - b * t
  {
    if a < b {
      MultipleMonotone(a + 1, b, t);
    }
    m := a - b;
  }

  lemma GapAndTicksIsEarly(c: Config, n: nat, m: nat)
    requires c.tick > 0 && 0 < n < c.minSize < WORD && c.minSize - n == Gap(c) + m * c.tick
    ensures OnGrid(c, n)
  {
    var t := c.tick;
    assert W32(n - c.minSize) == WORD - (c.minSize - n);
    hide W32, Gap;
    GapPositive(c);
    GapOnGrid(c);
    var a := (WORD - Gap(c)) / t;
    assert WORD - Gap(c) == a * t;
    var d := Subtract(a, m, t);
    Multiple(d, t);
  }

  /** The least size that the test picks although it is below the smallest one. */
  lemma FirstEarly(c: Config, n: nat)
    requires c.tick > 0 && Gap(c) < c.minSize < WORD
    ensures var first := (c.minSize - Gap(c) - 1) % c.tick + 1;
            && first < c.minSize && OnGrid(c, first)
            && (0 < n < first ==> !OnGrid(c, n))
  {
    hide Gap, OnGrid;
    GapPositive(c);
    var x := c.minSize - Gap(c) - 1;
    var q := TicksBelow(x, c.tick);
    GapAndTicksIsEarly(c, x % c.tick + 1, q);
    if n > 0 && OnGrid(c, n) && n < c.minSize {
      var m := EarlyIsGapAndTicks(c, n);
      LowestRung(x, q, m, c.tick, n);
    }
  }

  lemma TicksBelow(x: nat, t: nat) returns (q: nat)
    requires t > 0
    ensures x == q * t + x % t && x % t <= x
  {
    q := x / t;
    assert x == q * t + x % t;
    NotBelow(q, t);
  }

  lemma LowestRung(x: nat, q: nat, m: nat, t: nat, n: nat)
    requires t > 0 && x == q * t + x % t && n > 0 && n == x + 1 - m * t
    ensures n >= x % t + 1
  {
    var r := x % t;
    assert r < t;
    if m > q {
      MultipleMonotone(q + 1, m, t);
    } else {
      MultipleMonotone(m, q, t);
    }
  }

  lemma NotBelow(q: nat, t: nat)
    ensures q * t >= 0
  {
  }

  /** Once the test has picked a size too early there is no curve. */
  lemma {:induction false} NoCurve(c: Config, shift: nat, g: Ghost, sizes: map<Block, nat>, n: nat, m: nat)
    requires c.tick > 0 && c.minSize <= c.maxSize
    requires |g.hist| == |g.stats| == NumTicks(c)
    requires 0 < n < c.minSize && OnGrid(c, n) && n <= m
    ensures Curve(c, shift, g, sizes, m).points.None?
    decreases m
  {
    hide OnGrid, NumTicks, IndexOfSize, Answer, QueryStep, ScaledPoint;
    if n < m {
      NoCurve(c, shift, g, sizes, n, m - 1);
    }
  }

  lemma GapPositive(c: Config)
    requires c.tick > 0
    ensures 0 < Gap(c) <= c.tick
  {
  }

  lemma {:induction false} GapOfPowerOfTwo(c: Config, k: nat)
    requires k <= 32 && c.tick == Pow2(k)
    ensures Gap(c) == c.tick
  {
    hide Pow2;
    Pow2Add(32 - k, k);
    Pow2Of32();
    Multiple(Pow2(32 - k), c.tick);
  }

  // --- what the curve says ---

  ghost predicate ExactAt(g: Ghost, i: nat) {
    i < |g.hist| == |g.stats| && Sum(g.hist[..i + 1]) <= g.count && Exact(g, i)
  }

  /** Every query would now be answered with the true counts. */
  ghost predicate AllExact(g: Ghost) {
    && |g.hist| == |g.stats|
    && g.count < WORD
    && forall i :: 0 <= i < |g.hist| ==> ExactAt(g, i)
  }

  ghost function TrueStat(g: Ghost, i: nat): Stat
    requires ExactAt(g, i)
  {
    Stat(Sum(g.hist[..i + 1]), g.count - Sum(g.hist[..i + 1]))
  }

  lemma ExactBuild(g: Ghost, i: nat)
    requires i < |g.hist| && g.count < WORD && Sum(g.hist[..i + 1]) <= g.count
    requires g.stats == Build(g.hist, g.count)
    ensures ExactAt(g, i)
  {
    assert g.stats[i] == BuildStat(g.hist, g.count, i);
  }

  lemma QueryKeepsExact(g: Ghost, i: nat)
    requires AllExact(g) && i < |g.hist|
    ensures AllExact(QueryStep(g, i)) && ExactAt(g, i) && Answer(g, i) == Some(TrueStat(g, i))
  {
    assert ExactAt(g, i);
    var g' := QueryStep(g, i);
    if g' != g {
      forall j | 0 <= j < |g'.hist|
        ensures ExactAt(g', j)
      {
        assert ExactAt(g, j);
        ExactBuild(g', j);
      }
    }
  }

  /** The simulated sizes that a list of `n` keys has reached. */
  function Reached(c: Config, n: nat): nat
    requires c.tick > 0
  {
    if n < c.minSize then 0 else (n - c.minSize) / c.tick + 1
  }

  /** The `i`-th point of a correct curve. */
  ghost function TruePoint(c: Config, shift: nat, g: Ghost, sizes: map<Block, nat>, i: nat): Point
    requires ExactAt(g, i)
  {
    ScaledPoint(shift, g.list, sizes, SizeOf(c, i), TrueStat(g, i))
  }

  ghost predicate CorrectCurve(c: Config, shift: nat, g: Ghost, sizes: map<Block, nat>, n: nat, o: Outcome)
    requires c.tick > 0
  {
    && o.points.Some?
    && |o.points.value| == Reached(c, n)
    && AllExact(o.g)
    && o.g == g.(stats := o.g.stats)
    && forall i :: 0 <= i < |o.points.value| ==>
         ExactAt(g, i) && o.points.value[i] == TruePoint(c, shift, g, sizes, i)
  }

  lemma ReachedStep(c: Config, n: nat)
    requires ValidConfig(c) && 0 < n <= c.maxSize < WORD && (n < c.minSize ==> !OnGrid(c, n))
    ensures if OnGrid(c, n) then
              && c.minSize <= n && Reached(c, n) == Reached(c, n - 1) + 1
              && IndexOfSize(c, n) == Reached(c, n - 1) < NumTicks(c) && SizeOf(c, IndexOfSize(c, n)) == n
            else Reached(c, n) == Reached(c, n - 1)
  {
    hide Gap, ValidConfig;
    ConfigFacts(c);
    if n >= c.minSize {
      assert W32(n - c.minSize) == n - c.minSize;
      ReachedAt(c, n);
      if (n - c.minSize) % c.tick == 0 {
        IndexOfSizeIsRight(c, n);
      }
    }
  }

  lemma ConfigFacts(c: Config)
    requires ValidConfig(c)
    ensures c.tick > 0 && 1 < c.minSize <= c.maxSize
  {
  }

  lemma ReachedAt(c: Config, n: nat)
    requires c.tick > 0 && c.minSize <= n && n > 0
    ensures Reached(c, n) == Reached(c, n - 1) + if (n - c.minSize) % c.tick == 0 then 1 else 0
    ensures (n - c.minSize) % c.tick == 0 ==> Reached(c, n - 1) == (n - c.minSize) / c.tick
  {
    var x, t := n - c.minSize, c.tick;
    if x > 0 {
      var q, r := x / t, x % t;
      assert x == q * t + r;
      if r > 0 {
        DivisionUnique(x - 1, t, q, r - 1);
      } else {
        assert q > 0;
        assert x - 1 == (q - 1) * t + (t - 1);
        DivisionUnique(x - 1, t, q - 1, t - 1);
      }
    } else {
      DivisionUnique(0, t, 0, 0);
    }
  }

  lemma NotTooEarly(c: Config, n: nat)
    requires ValidConfig(c) && c.maxSize < WORD && Admissible(c, n)
    ensures 0 < n < c.minSize ==> !OnGrid(c, n)
    ensures n > 0 ==> Admissible(c, n - 1)
  {
    hide Gap, OnGrid;
    if c.minSize <= Gap(c) {
      NeverFiresEarlyIff(c);
    } else {
      FirstEarly(c, n);
    }
  }

  /**
   * When the statistics are exact and no size is picked too early, the traversal of the first
   * `n` keys yields one point per simulated size reached, in order.
   */
  lemma {:induction false} CurveIsCorrect(c: Config, shift: nat, g: Ghost, sizes: map<Block, nat>, n: nat)
    requires Inv(c, g) && AllExact(g) && n <= c.maxSize < WORD && Admissible(c, n)
    ensures CorrectCurve(c, shift, g, sizes, n, Curve(c, shift, g, sizes, n))
  {
    hide Admissible, AllExact, ExactAt, Answer, QueryStep, OnGrid, Reached, ScaledPoint, SizeOf, Sum, IndexOfSize,
         NumTicks;
    if n > 0 {
      NotTooEarly(c, n);
      CurveIsCorrect(c, shift, g, sizes, n - 1);
      ReachedStep(c, n);
      var o := Curve(c, shift, g, sizes, n - 1);
      if OnGrid(c, n) {
        var i := IndexOfSize(c, n);
        ExtendCurve(c, shift, g, sizes, n, o);
        assert Curve(c, shift, g, sizes, n)
            == Outcome(QueryStep(o.g, i),
                       Some(o.points.value + [ScaledPoint(shift, g.list, sizes, n, Answer(o.g, i).value)]));
      } else {
        assert Curve(c, shift, g, sizes, n) == o;
        SkipKey(c, shift, g, sizes, n, o);
      }
    } else {
      NoneReached(c);
    }
  }

  /** With exact statistics there is a curve if and only if the smallest size and the list admit it. */
  lemma CurveIff(c: Config, shift: nat, g: Ghost, sizes: map<Block, nat>)
    requires Inv(c, g) && AllExact(g) && c.maxSize < WORD
    ensures |g.hist| == |g.stats| == NumTicks(c)
    ensures Curve(c, shift, g, sizes, |g.list|).points.Some? <==> Admissible(c, |g.list|)
  {
    hide AllExact, OnGrid, Gap, Curve, SizeOf, Sum;
    if Admissible(c, |g.list|) {
      CurveIsCorrect(c, shift, g, sizes, |g.list|);
    } else {
      FirstEarly(c, 0);
      NoCurve(c, shift, g, sizes, (c.minSize - Gap(c) - 1) % c.tick + 1, |g.list|);
    }
  }

  /** Sizes the constructor accepts, for which the very first key already fails an assertion. */
  lemma FailingCurve(shift: nat, k: Block, sizes: map<Block, nat>)
    ensures var c := Config(3, 2, 11);
            var g := Run(c, [Access(k, Default)]);
            && ValidConfig(c) && |g.hist| == |g.stats| == NumTicks(c)
            && g.list == [k] && Curve(c, shift, g, sizes, 1).points.None?
  {
    var c := Config(3, 2, 11);
    assert [Access(k, Default)][..0] == [];
    assert Run(c, [Access(k, Default)]) == AccessStep(c, Init(c), k, Default);
    assert Moved([], k) == [k];
    assert OnGrid(c, 1);
    RunKeepsInv(c, [Access(k, Default)]);
    NoCurve(c, shift, Run(c, [Access(k, Default)]), sizes, 1, 1);
  }

  lemma SkipKey(c: Config, shift: nat, g: Ghost, sizes: map<Block, nat>, n: nat, o: Outcome)
    requires c.tick > 0 && n > 0 && Reached(c, n) == Reached(c, n - 1)
    requires CorrectCurve(c, shift, g, sizes, n - 1, o)
    ensures CorrectCurve(c, shift, g, sizes, n, o)
  {
  }

  lemma NoneReached(c: Config)
    requires ValidConfig(c)
    ensures Reached(c, 0) == 0
  {
  }

  lemma ExtendCurve(c: Config, shift: nat, g: Ghost, sizes: map<Block, nat>, n: nat, o: Outcome)
    requires Inv(c, g) && AllExact(g) && 0 < n
    requires CorrectCurve(c, shift, g, sizes, n - 1, o)
    requires c.minSize <= n && IndexOfSize(c, n) == Reached(c, n - 1) < NumTicks(c)
    requires SizeOf(c, IndexOfSize(c, n)) == n && Reached(c, n) == Reached(c, n - 1) + 1
    ensures var i := IndexOfSize(c, n);
            && i < |o.g.stats| == |o.g.hist|
            && Answer(o.g, i).Some?
            && CorrectCurve(c, shift, g, sizes, n,
                 Outcome(QueryStep(o.g, i),
                         Some(o.points.value + [ScaledPoint(shift, g.list, sizes, n, Answer(o.g, i).value)])))
  {
    hide Exact, SizeOf, Sum, ScaledPoint, Build, AllExact, Answer, IndexOfSize, Reached;
    var i := IndexOfSize(c, n);
    InvSizes(c, o.g, g);
    QueryKeepsExact(o.g, i);
    QueryKeepsExact(g, i);
  }

  lemma InvSizes(c: Config, o: Ghost, g: Ghost)
    requires Inv(c, g) && o == g.(stats := o.stats) && AllExact(o)
    ensures |g.hist| == |g.stats| == |o.stats| == NumTicks(c)
  {
  }

  lemma ReachedSizes(c: Config, n: nat, i: nat)
    requires c.tick > 0 && i < Reached(c, n)
    ensures SizeOf(c, i) <= n
  {
    BucketIsLeast(c, n);
  }

  lemma RunIsExact(c: Config, es: seq<Event>)
    requires ValidConfig(c)
    requires !Fooled(ViewOf(c, es)) && ViewOf(c, es).builtCount < WORD && ViewOf(c, es).count < WORD
    ensures AllExact(Run(c, es))
  {
    TRunInv(c, es);
    forall i | 0 <= i < NumTicks(c)
      ensures ExactAt(Run(c, es), i)
    {
      ExactUnlessFooled(c, TRun(c, es), i);
    }
  }

  /** What the `i`-th point has to be, told by a plain LRU cache of that size alone. */
  function PlainPoint(shift: nat, size: nat, p: Plain, sizes: map<Block, nat>): Point {
    Point(W32(size * Pow2(shift)), W32(KvSum(p.list, sizes) * Pow2(shift)), Stat(p.hits, p.misses))
  }

  /**
   * The curve against the reference, for every trace with trustworthy statistics.  If the sizes
   * admit it there is one point per simulated size the list has reached, each carrying the key
   * count scaled up, the scaled total size of exactly the keys a plain LRU cache of that size
   * holds, and the hits and misses that cache scored; otherwise there is no curve.
   */
  lemma CurveMatchesPlain(c: Config, shift: nat, es: seq<Event>, sizes: map<Block, nat>, i: nat)
    requires ValidConfig(c) && c.maxSize < WORD
    requires !Fooled(ViewOf(c, es)) && ViewOf(c, es).builtCount < WORD && ViewOf(c, es).count < WORD
    ensures |Run(c, es).hist| == |Run(c, es).stats| == NumTicks(c)
    ensures var n := |Run(c, es).list|;
            var o := Curve(c, shift, Run(c, es), sizes, n);
            && (o.points.Some? <==> Admissible(c, n))
            && (o.points.Some? ==> |o.points.value| == Reached(c, n))
            && (o.points.Some? && i < Reached(c, n) ==>
                  var p := PlainRun(SizeOf(c, i), es);
                  && |p.list| == SizeOf(c, i)
                  && o.points.value[i] == PlainPoint(shift, SizeOf(c, i), p, sizes))
  {
    hide Run, PlainRun, Curve, Reached, SizeOf, Admissible, ViewOf, KvSum, Pow2, AllExact, Sum;
    var g := Run(c, es);
    RunKeepsInv(c, es);
    RunIsExact(c, es);
    CurveIff(c, shift, g, sizes);
    if Admissible(c, |g.list|) {
      CurveIsCorrect(c, shift, g, sizes, |g.list|);
      if i < Reached(c, |g.list|) {
        ReachedSizes(c, |g.list|, i);
        ReachedBelowTicks(c, |g.list|);
        GhostMatchesPlain(c, es, i);
      }
    }
  }

  lemma ReachedBelowTicks(c: Config, n: nat)
    requires ValidConfig(c) && n <= c.maxSize
    ensures Reached(c, n) <= NumTicks(c)
  {
    if n >= c.minSize && Reached(c, n) > NumTicks(c) {
      ReachedSizes(c, n, NumTicks(c));
      LargestSize(c);
    }
  }
}
