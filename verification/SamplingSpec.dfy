/** Sampling and checkpointing, both stated over runs of the ghost cache. */
module SamplingSpec {
  import opened Seqs
  import opened Words
  import opened Buckets
  import opened PlainLru
  import opened GhostSpec
  import opened LazyStats

  /** The top `shift` bits of the 32-bit hash are all zero. */
  predicate IsSampled(hash: Block -> nat, shift: nat, k: Block)
    requires shift <= 32
  {
    hash(k) < Pow2(32 - shift)
  }

  /** Which is what the code finds by shifting the hash right. */
  lemma SampledByShift(hash: Block -> nat, shift: nat, k: Block)
    requires shift <= 32
    ensures Div(hash(k), Pow2(32 - shift)) == 0 <==> IsSampled(hash, shift, k)
  {
    DivFloor(hash(k), Pow2(32 - shift));
    hide Div;
    var q := Div(hash(k), Pow2(32 - shift));
    if q >= 1 {
      MultipleMonotone(1, q, Pow2(32 - shift));
    }
  }

  function Scale(x: nat, shift: nat): nat {
    Div(x, Pow2(shift))
  }

  /** Shifting right rounds down. */
  lemma ScaleRoundsDown(x: nat, shift: nat)
    ensures Scale(x, shift) * Pow2(shift) <= x < (Scale(x, shift) + 1) * Pow2(shift)
  {
    DivFloor(x, Pow2(shift));
  }

  function ScaleConfig(c: Config, shift: nat): Config {
    Config(Scale(c.tick, shift), Scale(c.minSize, shift), Scale(c.maxSize, shift))
  }

  /** What the constructor of the sampled cache asserts about the unscaled sizes. */
  ghost predicate ValidSampling(c: Config, shift: nat) {
    && 0 < shift < 32
    && c.tick % Pow2(shift) == c.minSize % Pow2(shift) == c.maxSize % Pow2(shift) == 0
    && ValidConfig(ScaleConfig(c, shift))
  }

  function SampledStep(c: Config, hash: Block -> nat, shift: nat, g: Ghost, e: Event): Ghost
    requires c.tick > 0 && c.minSize <= c.maxSize && shift <= 32
  {
    if e.Access? && !IsSampled(hash, shift, e.key) then g else Step(c, g, e)
  }

  function SampledRun(c: Config, hash: Block -> nat, shift: nat, es: seq<Event>): Ghost
    requires c.tick > 0 && c.minSize <= c.maxSize && shift <= 32
  {
    if es == [] then Init(c)
    else SampledStep(c, hash, shift, SampledRun(c, hash, shift, es[..|es| - 1]), es[|es| - 1])
  }

  /** The subtrace a sampled cache is sensitive to. */
  function Subtrace(hash: Block -> nat, shift: nat, es: seq<Event>): seq<Event>
    requires shift <= 32
  {
    if es == [] then []
    else
      var e := es[|es| - 1];
      var s := Subtrace(hash, shift, es[..|es| - 1]);
      if e.Access? && !IsSampled(hash, shift, e.key) then s else s + [e]
  }

  lemma SubtraceSnoc(hash: Block -> nat, shift: nat, es: seq<Event>, e: Event)
    requires shift <= 32
    ensures var s := Subtrace(hash, shift, es);
            Subtrace(hash, shift, es + [e]) == if e.Access? && !IsSampled(hash, shift, e.key) then s else s + [e]
  {
    assert (es + [e])[..|es|] == es;
  }

  /** An access in terms of the code's test, and of the value of the hash. */
  lemma AccessSampled(hash: Block -> nat, shift: nat, es: seq<Event>, k: Block, mode: Mode)
    requires shift <= 32
    ensures var sampled := hash(k) < Pow2(32 - shift);
            && (sampled <==> Div(hash(k), Pow2(32 - shift)) == 0)
            && Subtrace(hash, shift, es + [Access(k, mode)])
               == Subtrace(hash, shift, es) + (if sampled then [Access(k, mode)] else [])
  {
    hide Div;
    SampledByShift(hash, shift, k);
    SubtraceSnoc(hash, shift, es, Access(k, mode));
  }

  /** A sampled run is an ordinary run over the subtrace. */
  lemma {:induction false} SampledRunIsSubtraceRun(c: Config, hash: Block -> nat, shift: nat, es: seq<Event>)
    requires ValidConfig(c) && shift <= 32
    ensures SampledRun(c, hash, shift, es) == Run(c, Subtrace(hash, shift, es))
  {
    if es != [] {
      var es' := es[..|es| - 1];
      SampledRunIsSubtraceRun(c, hash, shift, es');
      var s := Subtrace(hash, shift, es');
      assert (s + [es[|es| - 1]])[..|s|] == s;
    }
  }

  lemma ScaleExact(x: nat, shift: nat)
    requires x % Pow2(shift) == 0
    ensures x == Scale(x, shift) * Pow2(shift)
  {
    DivExact(x, Pow2(shift));
  }

  lemma DivExact(x: nat, t: nat)
    requires t > 0 && x % t == 0
    ensures x == Div(x, t) * t
  {
  }

  lemma ScaleUnique(x: nat, q: nat, shift: nat)
    requires x == q * Pow2(shift)
    ensures Scale(x, shift) == q
  {
    DivisionUnique(x, Pow2(shift), q, 0);
  }

  /** Scaling commutes with the spectrum: the `i`-th scaled size is the scaled `i`-th size. */
  lemma {:induction false} ScaledSizes(c: Config, shift: nat, i: nat)
    requires c.tick % Pow2(shift) == c.minSize % Pow2(shift) == 0
    ensures SizeOf(c, i) == SizeOf(ScaleConfig(c, shift), i) * Pow2(shift)
    ensures SizeOf(ScaleConfig(c, shift), i) == Scale(SizeOf(c, i), shift)
  {
    var p := Pow2(shift);
    var d := ScaleConfig(c, shift);
    ScaleExact(c.tick, shift);
    ScaleExact(c.minSize, shift);
    if i > 0 {
      ScaledSizes(c, shift, i - 1);
      Distribute(SizeOf(d, i - 1), d.tick, p);
    }
    ScaleUnique(SizeOf(c, i), SizeOf(d, i), shift);
  }

  lemma Distribute(a: nat, b: nat, p: nat)
    ensures (a + b) * p == a * p + b * p
  {
  }

  /**
   * The score a sampled cache keeps for the `i`-th advertised size is that of a plain LRU
   * cache of that size shifted right, run over the subtrace alone.
   */
  lemma {:induction false} SampledMatchesPlain(c: Config, hash: Block -> nat, shift: nat, es: seq<Event>, i: nat)
    requires ValidSampling(c, shift) && i < NumTicks(ScaleConfig(c, shift))
    ensures var g := SampledRun(ScaleConfig(c, shift), hash, shift, es);
            var p := PlainRun(Scale(SizeOf(c, i), shift), Subtrace(hash, shift, es));
            && |g.hist| == NumTicks(ScaleConfig(c, shift))
            && p.list == Newest(g.list, Scale(SizeOf(c, i), shift))
            && p.hits == Sum(g.hist[..i + 1])
            && p.misses == g.count - Sum(g.hist[..i + 1])
  {
    var d := ScaleConfig(c, shift);
    SampledRunIsSubtraceRun(d, hash, shift, es);
    ScaledSizes(c, shift, i);
    GhostMatchesPlain(d, Subtrace(hash, shift, es), i);
  }

  /** What a sampled query answers, unless the statistics of the subtrace are stale. */
  lemma {:induction false} SampledQueryIsPlain(c: Config, hash: Block -> nat, shift: nat, es: seq<Event>, i: nat)
    requires ValidSampling(c, shift) && i < NumTicks(ScaleConfig(c, shift))
    requires var v := ViewOf(ScaleConfig(c, shift), Subtrace(hash, shift, es));
             !Fooled(v) && v.builtCount < WORD && v.count < WORD
    ensures var g := SampledRun(ScaleConfig(c, shift), hash, shift, es);
            var p := PlainRun(Scale(SizeOf(c, i), shift), Subtrace(hash, shift, es));
            i < |g.stats| == |g.hist| && Answer(g, i) == Some(Stat(p.hits, p.misses))
  {
    hide Run, PlainRun, ViewOf, SizeOf, SampledRun, Subtrace, Answer;
    var d := ScaleConfig(c, shift);
    SampledRunIsSubtraceRun(d, hash, shift, es);
    ScaledSizes(c, shift, i);
    QueryIsPlainLru(d, Subtrace(hash, shift, es), i);
  }

  // --- checkpoint and recovery ---

  function Replay(keys: seq<Block>): seq<Event> {
    if keys == [] then [] else Replay(keys[..|keys| - 1]) + [Access(keys[|keys| - 1], Noop)]
  }

  lemma ReplayNone(c: Config)
    requires ValidConfig(c)
    ensures Replay([]) == [] && Run(c, Replay([])) == Init(c)
  {
  }

  lemma ReplayStep(c: Config, keys: seq<Block>, i: nat)
    requires ValidConfig(c) && i < |keys|
    ensures Replay(keys[..i + 1]) == Replay(keys[..i]) + [Access(keys[i], Noop)]
    ensures Run(c, Replay(keys[..i + 1])) == AccessStep(c, Run(c, Replay(keys[..i])), keys[i], Noop)
  {
    var ks := keys[..i + 1];
    assert ks[..i] == keys[..i];
    var r := Replay(keys[..i]);
    assert (r + [Access(keys[i], Noop)])[..|r|] == r;
  }

  lemma {:induction false} ReplayRun(c: Config, keys: seq<Block>)
    requires ValidConfig(c)
    ensures Run(c, Replay(keys)) == Init(c).(list := LruRun(keys, c.maxSize))
  {
    if keys != [] {
      var ks := keys[..|keys| - 1];
      ReplayRun(c, ks);
      var r := Replay(ks);
      assert (r + [Access(keys[|keys| - 1], Noop)])[..|r|] == r;
    }
  }

  /**
   * Replaying a checkpointed list, oldest first and uncounted, into a fresh cache with any
   * parameters rebuilds its newest part that fits, and leaves every statistic at zero.
   */
  lemma RecoverRebuilds(c: Config, d: Config, es: seq<Event>)
    requires ValidConfig(c) && ValidConfig(d)
    ensures var saved := Run(c, es).list;
            Run(d, Replay(saved)) == Init(d).(list := Newest(saved, d.maxSize))
    ensures var saved := Run(c, es).list;
            |saved| <= d.maxSize ==> Run(d, Replay(saved)).list == saved
  {
    var saved := Run(c, es).list;
    RunKeepsInv(c, es);
    ReplayRun(d, saved);
    RunOfDistinct(saved, d.maxSize);
  }
}
