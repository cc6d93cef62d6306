/**
 * The spectrum of cache sizes a ghost cache simulates, and the class of sizes
 * that still hold a key found at a given distance from the MRU end.
 */
module Buckets {
  import opened Words

  datatype Config = Config(tick: nat, minSize: nat, maxSize: nat)

  function NumTicks(c: Config): nat
    requires c.tick > 0 && c.minSize <= c.maxSize
  {
    (c.maxSize - c.minSize) / c.tick + 1
  }

  /** What the constructor of the ghost cache asserts. */
  ghost predicate ValidConfig(c: Config) {
    && c.tick > 0
    && 1 < c.minSize <= c.maxSize
    && c.minSize + (NumTicks(c) - 1) * c.tick == c.maxSize
    && NumTicks(c) > 2
  }

  /** The capacity of the `i`-th simulated cache. */
  function SizeOf(c: Config, i: nat): (s: nat)
    ensures s >= c.minSize
  {
    if i == 0 then c.minSize else SizeOf(c, i - 1) + c.tick
  }

  lemma {:induction false} SizeOfClosed(c: Config, i: nat)
    ensures SizeOf(c, i) == c.minSize + i * c.tick
  {
    if i > 0 {
      SizeOfClosed(c, i - 1);
    }
  }

  lemma {:induction false} SizeOfMonotone(c: Config, i: nat, j: nat)
    requires i < j && c.tick > 0
    ensures SizeOf(c, i) + c.tick <= SizeOf(c, j)
    decreases j
  {
    if i + 1 < j {
      SizeOfMonotone(c, i, j - 1);
    }
  }

  lemma LargestSize(c: Config)
    requires ValidConfig(c)
    ensures SizeOf(c, NumTicks(c) - 1) == c.maxSize
  {
    SizeOfClosed(c, NumTicks(c) - 1);
  }

  lemma SizesBelowMax(c: Config, i: nat)
    requires ValidConfig(c) && i < NumTicks(c)
    ensures c.minSize <= SizeOf(c, i) <= c.maxSize
    ensures i < NumTicks(c) - 1 ==> SizeOf(c, i) + c.tick <= c.maxSize
  {
    LargestSize(c);
    if i < NumTicks(c) - 1 {
      SizeOfMonotone(c, i, NumTicks(c) - 1);
    }
    if i > 0 {
      SizeOfMonotone(c, 0, i);
    }
  }

  /** The intended `size_idx` of the node at distance `d` from the MRU end. */
  function Bucket(c: Config, d: nat): nat
    requires c.tick > 0
  {
    if d < c.minSize then 0 else (d - c.minSize) / c.tick + 1
  }

  /** `Bucket` is the least index whose cache reaches past distance `d`. */
  lemma BucketIsLeast(c: Config, d: nat)
    requires c.tick > 0
    ensures d < SizeOf(c, Bucket(c, d))
    ensures forall i :: 0 <= i < Bucket(c, d) ==> SizeOf(c, i) <= d
  {
    var b := Bucket(c, d);
    SizeOfClosed(c, b);
    if b > 0 {
      var q := (d - c.minSize) / c.tick;
      DivBounds(d - c.minSize, c.tick);
      SizeOfClosed(c, q);
      forall i | 0 <= i < b
        ensures SizeOf(c, i) <= d
      {
        if i < q {
          SizeOfMonotone(c, i, q);
        }
      }
    }
  }

  lemma DivBounds(x: nat, t: nat)
    requires t > 0
    ensures (x / t) * t <= x < (x / t + 1) * t
  {
  }

  /** The two descriptions of a bucket determine each other. */
  lemma BucketUnique(c: Config, d: nat, b: nat)
    requires c.tick > 0
    requires d < SizeOf(c, b) && (b > 0 ==> SizeOf(c, b - 1) <= d)
    ensures Bucket(c, d) == b
  {
    BucketIsLeast(c, d);
    var a := Bucket(c, d);
    if a < b {
      if a < b - 1 {
        SizeOfMonotone(c, a, b - 1);
      }
    }
    assert b < a ==> SizeOf(c, b) <= d;
  }

  /** A key is within the `k`-th simulated cache iff its bucket is at most `k`. */
  lemma BucketIffWithin(c: Config, d: nat, k: nat)
    requires c.tick > 0
    ensures Bucket(c, d) <= k <==> d < SizeOf(c, k)
  {
    BucketIsLeast(c, d);
    var b := Bucket(c, d);
    if b < k {
      SizeOfMonotone(c, b, k);
    }
  }

  /** The rounded-up division that classifies a newly inserted key by the list length. */
  function InsertIdx(c: Config, n: nat): nat
    requires c.tick > 0
  {
    if n > c.minSize then (n - c.minSize + c.tick - 1) / c.tick else 0
  }

  /** It counts the simulated sizes that are strictly smaller than the list. */
  lemma InsertIdxCounts(c: Config, n: nat)
    requires c.tick > 0
    ensures n <= SizeOf(c, InsertIdx(c, n))
    ensures forall i :: 0 <= i < InsertIdx(c, n) ==> SizeOf(c, i) < n
    ensures n > 0 ==> InsertIdx(c, n) == Bucket(c, n - 1)
  {
    if n > c.minSize {
      assert n - c.minSize + c.tick - 1 == (n - 1 - c.minSize) + c.tick;
      DivShift(n - 1 - c.minSize, c.tick);
      assert InsertIdx(c, n) == Bucket(c, n - 1);
      BucketIsLeast(c, n - 1);
    }
  }

  lemma DivShift(x: nat, t: nat)
    requires t > 0
    ensures (x + t) / t == x / t + 1
  {
    var q := x / t;
    assert x == q * t + x % t;
    assert x + t == (q + 1) * t + x % t;
    DivisionUnique(x + t, t, q + 1, x % t);
  }

  /** The index under which a simulated size is asked for. */
  function IndexOfSize(c: Config, size: nat): nat
    requires c.tick > 0 && c.minSize <= size
  {
    (size - c.minSize) / c.tick
  }

  lemma IndexOfSizeIsRight(c: Config, size: nat)
    requires ValidConfig(c) && c.minSize <= size <= c.maxSize && (size - c.minSize) % c.tick == 0
    ensures IndexOfSize(c, size) < NumTicks(c) && SizeOf(c, IndexOfSize(c, size)) == size
  {
    var i := IndexOfSize(c, size);
    SizeOfClosed(c, i);
    DivBounds(size - c.minSize, c.tick);
    LargestSize(c);
    if NumTicks(c) - 1 < i {
      SizeOfMonotone(c, NumTicks(c) - 1, i);
    }
  }
}
