/**
 * The adaptive replacement cache, as a state machine.  `t1` and `t2` hold the resident
 * keys seen once and more than once, `b1` and `b2` the keys recently evicted from them,
 * newest first; `p` is the target length of `t1`.
 */
module ArcSpec {
  import opened Seqs
  import opened Words

  /** A 32-bit block number. */
  type Key = k: nat | k < WORD

  datatype Arc = Arc(cap: nat, p: nat, t1: seq<Key>, t2: seq<Key>, b1: seq<Key>, b2: seq<Key>,
                     inGhost: set<Key>, hits: nat, misses: nat, evictions: nat)

  function Init(cap: nat): Arc {
    Arc(cap, 0, [], [], [], [], {}, 0, 0, 0)
  }

  const HALF: int := 0x8000_0000

  /** A size cast to a signed word. */
  function Signed(n: nat): int {
    if W32(n) < HALF then W32(n) else W32(n) - WORD
  }

  /** The signed division of two words rounds towards zero; by zero, or beyond the largest word, it is undefined. */
  predicate Divides(a: int, b: int) {
    b != 0 && !(a == -HALF && b == -1)
  }

  function SignedQuotient(a: int, b: int): int
    requires Divides(a, b)
  {
    var q := Max(a, -a) / Max(b, -b);
    if (a < 0) == (b < 0) then q else -q
  }

  function Ratio(a: nat, b: nat): int {
    if Divides(Signed(a), Signed(b)) then SignedQuotient(Signed(a), Signed(b)) else 0
  }

  /** All but the oldest. */
  function PopBack(s: seq<Key>): seq<Key> {
    if s == [] then [] else RemoveAt(s, |s| - 1)
  }

  function Resident(s: Arc): nat {
    |s.t1| + |s.t2|
  }

  function Total(s: Arc): nat {
    |s.t1| + |s.t2| + |s.b1| + |s.b2|
  }

  /** Evicts one resident key into the ghost list of its side. */
  predicate FromT1(s: Arc, inB2: bool) {
    s.t1 != [] && (|s.t1| > s.p || (inB2 && |s.t1| == s.p))
  }

  function Replace(s: Arc, inB2: bool): Arc {
    if FromT1(s, inB2) then
      var k := s.t1[|s.t1| - 1];
      s.(t1 := PopBack(s.t1), b1 := [k] + s.b1, inGhost := s.inGhost + {k}, evictions := s.evictions + 1)
    else if s.t2 != [] then
      var k := s.t2[|s.t2| - 1];
      s.(t2 := PopBack(s.t2), b2 := [k] + s.b2, inGhost := s.inGhost + {k}, evictions := s.evictions + 1)
    else s
  }

  function Grow(s: Arc): nat {
    Min(W32(s.p + Max(1, Ratio(|s.b2|, |s.b1|))), s.cap)
  }

  function Delta(s: Arc): nat {
    Max(1, Ratio(|s.b1|, |s.b2|))
  }

  /** As written: the difference is unsigned, so the maximum with zero changes nothing. */
  function Shrink(s: Arc): nat {
    Max(W32(s.p - Delta(s)), 0)
  }

  function Hit(s: Arc, k: Key): Arc {
    if k in s.t1 then s.(t1 := Without(s.t1, k), t2 := [k] + s.t2, hits := s.hits + 1)
    else s.(t2 := [k] + Without(s.t2, k), hits := s.hits + 1)
  }

  function GhostHit1(s: Arc, k: Key): Arc {
    var r := Replace(s.(p := Grow(s), misses := s.misses + 1), false);
    r.(b1 := Without(r.b1, k), inGhost := r.inGhost - {k}, t2 := [k] + r.t2)
  }

  function GhostHit2(s: Arc, k: Key, p: nat): Arc {
    var r := Replace(s.(p := p, misses := s.misses + 1), true);
    r.(b2 := Without(r.b2, k), inGhost := r.inGhost - {k}, t2 := [k] + r.t2)
  }

  function DropB1(s: Arc): Arc {
    if s.b1 == [] then s
    else s.(b1 := PopBack(s.b1), inGhost := s.inGhost - {s.b1[|s.b1| - 1]})
  }

  function DropB2(s: Arc): Arc {
    if s.b2 == [] then s
    else s.(b2 := PopBack(s.b2), inGhost := s.inGhost - {s.b2[|s.b2| - 1]})
  }

  /** Makes room for a key never seen before, or forgotten. */
  function MakeRoom(s: Arc): Arc {
    if |s.t1| + |s.b1| == s.cap then
      if |s.t1| < s.cap then Replace(DropB1(s), false)
      else s.(t1 := PopBack(s.t1), evictions := s.evictions + 1)
    else if Total(s) >= s.cap then
      Replace(if Total(s) == W32(2 * s.cap) then DropB2(s) else s, false)
    else s
  }

  function Miss(s: Arc, k: Key): Arc {
    var r := MakeRoom(s.(misses := s.misses + 1));
    r.(t1 := [k] + r.t1)
  }

  function Step(s: Arc, k: Key): Arc {
    if k in s.t1 || k in s.t2 then Hit(s, k)
    else if k in s.inGhost then
      if k in s.b1 then GhostHit1(s, k) else GhostHit2(s, k, Shrink(s))
    else Miss(s, k)
  }

  // --- the invariant ---

  function Copies(t1: seq<Key>, t2: seq<Key>, b1: seq<Key>, b2: seq<Key>, k: Key): nat {
    multiset(t1)[k] + multiset(t2)[k] + multiset(b1)[k] + multiset(b2)[k]
  }

  function CopiesIn(s: Arc, k: Key): nat {
    Copies(s.t1, s.t2, s.b1, s.b2, k)
  }

  ghost predicate NoCopies(t1: seq<Key>, t2: seq<Key>, b1: seq<Key>, b2: seq<Key>) {
    forall k :: Copies(t1, t2, b1, b2, k) <= 1
  }

  ghost predicate GhostsAre(b1: seq<Key>, b2: seq<Key>, inGhost: set<Key>) {
    forall k :: k in inGhost <==> k in b1 || k in b2
  }

  ghost predicate Structure(s: Arc) {
    NoCopies(s.t1, s.t2, s.b1, s.b2) && GhostsAre(s.b1, s.b2, s.inGhost)
  }

  /** What every access keeps that the code gives a meaning to. */
  ghost predicate Sound(s: Arc) {
    && Structure(s)
    && 0 < s.cap < WORD
    && s.p < WORD
    && |s.t1| + |s.b1| <= s.cap
    && Total(s) <= 2 * s.cap
  }

  /** The cache keeps its capacity, and is full from the moment it remembers an evicted key. */
  ghost predicate Inv(s: Arc) {
    && Sound(s)
    && Resident(s) <= s.cap
    && (s.b1 != [] || s.b2 != [] ==> Resident(s) == s.cap)
  }

  /** The code neither divides where division is undefined nor takes an element from an empty list. */
  predicate Defined(s: Arc, k: Key) {
    if k in s.t1 || k in s.t2 then true
    else if k in s.inGhost then
      if k in s.b1 then Divides(Signed(|s.b2|), Signed(|s.b1|)) else Divides(Signed(|s.b1|), Signed(|s.b2|))
    else if |s.t1| + |s.b1| == s.cap then |s.t1| < s.cap || s.t1 != []
    else s.cap <= Total(s) == W32(2 * s.cap) ==> s.b2 != []
  }

  lemma InitKeepsInv(cap: nat)
    requires 0 < cap < WORD
    ensures Inv(Init(cap))
  {
  }

  lemma RemoveCount(s: seq<Key>, i: nat)
    requires i < |s|
    ensures multiset(RemoveAt(s, i)) == multiset(s)[s[i] := multiset(s)[s[i]] - 1]
  {
    assert s == s[..i] + [s[i]] + s[i + 1..];
    assert multiset(s) == multiset(s[..i]) + multiset{s[i]} + multiset(s[i + 1..]);
  }

  lemma PushCount(s: seq<Key>, k: Key)
    ensures multiset([k] + s) == multiset(s)[k := multiset(s)[k] + 1]
    ensures forall x :: x in [k] + s <==> x == k || x in s
  {
    assert multiset([k] + s) == multiset([k]) + multiset(s);
  }

  lemma DistinctByCount(s: seq<Key>)
    requires forall k :: multiset(s)[k] <= 1
    ensures Distinct(s)
  {
    forall i, j | 0 <= i < j < |s|
      ensures s[i] != s[j]
    {
      assert s == s[..j] + s[j..];
      assert multiset(s)[s[j]] == multiset(s[..j])[s[j]] + multiset(s[j..])[s[j]];
      assert s[j..][0] == s[j] && s[..j][i] == s[i];
      assert s[j] in multiset(s[j..]) && s[i] in multiset(s[..j]);
    }
  }

  /** No key is in two lists, or twice in one. */
  lemma StructureMeans(s: Arc)
    requires Structure(s)
    ensures Distinct(s.t1 + s.t2 + s.b1 + s.b2)
  {
    var all := s.t1 + s.t2 + s.b1 + s.b2;
    forall k
      ensures multiset(all)[k] == Copies(s.t1, s.t2, s.b1, s.b2, k)
    {
    }
    DistinctByCount(all);
  }

  /** There are no more than `n` numbers below `n`. */
  lemma {:induction false} Pigeonhole(l: seq<nat>, n: nat)
    requires Distinct(l) && forall i :: 0 <= i < |l| ==> l[i] < n
    ensures |l| <= n
    decreases n
  {
    hide IndexOf, RemoveAt;
    if l != [] {
      assert l[0] < n;
      var rest := l;
      if n - 1 in l {
        RemoveAtMembers(l, IndexOf(l, n - 1));
        rest := RemoveAt(l, IndexOf(l, n - 1));
      }
      forall i | 0 <= i < |rest|
        ensures rest[i] < n - 1
      {
        assert rest[i] in l && rest[i] != n - 1;
      }
      Pigeonhole(rest, n - 1);
    }
  }

  lemma Below(l: seq<Key>, n: nat)
    requires n == WORD
    ensures forall i :: 0 <= i < |l| ==> l[i] < n
  {
  }

  /** The lists never hold more keys than there are, and fewer while some key is in none. */
  lemma KeysAreFew(s: Arc)
    requires Structure(s)
    ensures Total(s) <= WORD
    ensures forall k :: CopiesIn(s, k) == 0 ==> Total(s) < WORD
  {
    StructureMeans(s);
    var all, n := s.t1 + s.t2 + s.b1 + s.b2, WORD;
    Below(all, n);
    Pigeonhole(all, n);
    forall k | CopiesIn(s, k) == 0
      ensures Total(s) < WORD
    {
      var more := all + [k];
      assert k !in all;
      Below(more, n);
      Pigeonhole(more, n);
    }
  }

  // --- what each part of a step keeps ---

  lemma EraseCount(s: seq<Key>, k: Key)
    requires multiset(s)[k] <= 1
    ensures multiset(Without(s, k)) == multiset(s)[k := 0]
    ensures |Without(s, k)| == |s| - if k in s then 1 else 0
    ensures forall x :: x in Without(s, k) <==> x in s && x != k
  {
    if k in s {
      RemoveCount(s, IndexOf(s, k));
    }
    forall x
      ensures x in Without(s, k) <==> x in s && x != k
    {
      assert x in Without(s, k) <==> x in multiset(Without(s, k));
    }
  }

  lemma PopCount(s: seq<Key>)
    requires s != [] && multiset(s)[s[|s| - 1]] <= 1
    ensures var k := s[|s| - 1];
            && k in s && multiset(s)[k] == 1
            && |PopBack(s)| == |s| - 1
            && multiset(PopBack(s)) == multiset(s)[k := 0]
            && forall x :: x in PopBack(s) <==> x in s && x != k
  {
    RemoveCount(s, |s| - 1);
    forall x
      ensures x in PopBack(s) <==> x in s && x != s[|s| - 1]
    {
      assert x in PopBack(s) <==> x in multiset(PopBack(s));
    }
  }

  /** Whether a replacement finds a key it may evict. */
  predicate Evicts(s: Arc, inB2: bool) {
    FromT1(s, inB2) || s.t2 != []
  }

  function One(b: bool): nat {
    if b then 1 else 0
  }

  /** A replacement moves one key to a ghost list, unless there is nothing it may evict. */
  lemma ReplaceMoves(s: Arc, inB2: bool)
    requires Structure(s)
    ensures var r := Replace(s, inB2);
            && Structure(r) && r.cap == s.cap && r.p == s.p
            && Resident(r) + One(Evicts(s, inB2)) == Resident(s) && Total(r) == Total(s)
            && |r.t1| + |r.b1| == |s.t1| + |s.b1|
            && r.evictions == s.evictions + One(Evicts(s, inB2))
    ensures forall k :: CopiesIn(Replace(s, inB2), k) == CopiesIn(s, k)
    ensures forall k :: k in s.b1 ==> k in Replace(s, inB2).b1
    ensures forall k :: k in s.b2 ==> k in Replace(s, inB2).b2
  {
    hide Structure, CopiesIn, PopBack;
    if FromT1(s, inB2) {
      EvictFromT1(s);
    } else if s.t2 != [] {
      EvictFromT2(s);
    }
  }

  lemma EvictFromT1(s: Arc)
    requires Structure(s) && s.t1 != []
    ensures var k := s.t1[|s.t1| - 1];
            var r := s.(t1 := PopBack(s.t1), b1 := [k] + s.b1, inGhost := s.inGhost + {k},
                        evictions := s.evictions + 1);
            Structure(r) && |r.t1| == |s.t1| - 1 && forall x :: CopiesIn(r, x) == CopiesIn(s, x)
  {
    var k := s.t1[|s.t1| - 1];
    assert CopiesIn(s, k) <= 1;
    PopCount(s.t1);
    PushCount(s.b1, k);
    hide PopBack;
    forall x
      ensures Copies(PopBack(s.t1), s.t2, [k] + s.b1, s.b2, x) == Copies(s.t1, s.t2, s.b1, s.b2, x)
    {
    }
  }

  lemma EvictFromT2(s: Arc)
    requires Structure(s) && s.t2 != []
    ensures var k := s.t2[|s.t2| - 1];
            var r := s.(t2 := PopBack(s.t2), b2 := [k] + s.b2, inGhost := s.inGhost + {k},
                        evictions := s.evictions + 1);
            Structure(r) && |r.t2| == |s.t2| - 1 && forall x :: CopiesIn(r, x) == CopiesIn(s, x)
  {
    var k := s.t2[|s.t2| - 1];
    assert CopiesIn(s, k) <= 1;
    PopCount(s.t2);
    PushCount(s.b2, k);
    hide PopBack;
    forall x
      ensures Copies(s.t1, PopBack(s.t2), s.b1, [k] + s.b2, x) == Copies(s.t1, s.t2, s.b1, s.b2, x)
    {
    }
  }

  lemma HitKeeps(s: Arc, k: Key)
    requires Structure(s) && (k in s.t1 || k in s.t2)
    ensures var r := Hit(s, k);
            && Structure(r) && r.b1 == s.b1 && r.b2 == s.b2 && r.cap == s.cap && r.p == s.p
            && Resident(r) == Resident(s) && |r.t1| <= |s.t1|
            && r.evictions == s.evictions
  {
    assert CopiesIn(s, k) <= 1;
    EraseCount(s.t1, k);
    EraseCount(s.t2, k);
    PushCount(s.t2, k);
    PushCount(Without(s.t2, k), k);
    var r := Hit(s, k);
    forall x
      ensures Copies(r.t1, r.t2, r.b1, r.b2, x) == Copies(s.t1, s.t2, s.b1, s.b2, x)
    {
    }
  }

  /** A ghost key moves from its ghost list to the front of `t2`. */
  lemma Revive(s: Arc, k: Key, r: Arc)
    requires Structure(s) && (k in s.b1 || k in s.b2)
    requires k in s.b1 ==> r == s.(b1 := Without(s.b1, k), inGhost := s.inGhost - {k}, t2 := [k] + s.t2)
    requires k !in s.b1 ==> r == s.(b2 := Without(s.b2, k), inGhost := s.inGhost - {k}, t2 := [k] + s.t2)
    ensures Structure(r)
    ensures Resident(r) == Resident(s) + 1 && Total(r) == Total(s)
    ensures |r.b1| == |s.b1| - if k in s.b1 then 1 else 0
  {
    assert CopiesIn(s, k) <= 1;
    EraseCount(s.b1, k);
    EraseCount(s.b2, k);
    PushCount(s.t2, k);
    forall x
      ensures Copies(r.t1, r.t2, r.b1, r.b2, x) == Copies(s.t1, s.t2, s.b1, s.b2, x)
    {
    }
  }

  /** The state in which a ghost hit asks for its replacement. */
  function Retarget(s: Arc, p: nat): Arc {
    s.(p := p, misses := s.misses + 1)
  }

  /** What a ghost hit leaves, when it came to evict and when it did not. */
  ghost predicate Revived(s: Arc, r: Arc, p: nat, evicted: bool) {
    && Structure(r) && r.cap == s.cap && r.p == p
    && Total(r) == Total(s)
    && Resident(r) == Resident(s) + 1 - One(evicted)
    && r.evictions == s.evictions + One(evicted)
    && |r.t1| + |r.b1| <= |s.t1| + |s.b1|
  }

  lemma GhostHit1Keeps(s: Arc, k: Key)
    requires Structure(s) && k in s.b1
    ensures Revived(s, GhostHit1(s, k), Grow(s), Evicts(Retarget(s, Grow(s)), false))
  {
    hide Structure, Without, Replace, Grow;
    var s' := Retarget(s, Grow(s));
    SameLists(s, s');
    ReplaceMoves(s', false);
    Revive(Replace(s', false), k, GhostHit1(s, k));
  }

  lemma SameLists(s: Arc, s': Arc)
    requires Structure(s) && s'.t1 == s.t1 && s'.t2 == s.t2 && s'.b1 == s.b1 && s'.b2 == s.b2
    requires s'.inGhost == s.inGhost
    ensures Structure(s')
  {
  }

  lemma GhostHit2Keeps(s: Arc, k: Key, p: nat)
    requires Structure(s) && k in s.b2
    ensures Revived(s, GhostHit2(s, k, p), p, Evicts(Retarget(s, p), true))
  {
    hide Structure, Without, Replace;
    var s' := Retarget(s, p);
    SameLists(s, s');
    ReplaceMoves(s', true);
    var m := Replace(s', true);
    GhostsApart(m, k);
    Revive(m, k, GhostHit2(s, k, p));
  }

  lemma GhostsApart(m: Arc, k: Key)
    requires Structure(m) && k in m.b2
    ensures k !in m.b1
  {
    assert CopiesIn(m, k) <= 1;
  }

  lemma DropB1Keeps(s: Arc)
    requires Structure(s) && s.b1 != []
    ensures Structure(DropB1(s)) && |DropB1(s).b1| == |s.b1| - 1
    ensures forall k :: CopiesIn(DropB1(s), k) <= CopiesIn(s, k)
  {
    var k := s.b1[|s.b1| - 1];
    assert CopiesIn(s, k) <= 1;
    PopCount(s.b1);
    var r := DropB1(s);
    forall x
      ensures Copies(r.t1, r.t2, r.b1, r.b2, x) <= Copies(s.t1, s.t2, s.b1, s.b2, x)
    {
    }
  }

  lemma DropB2Keeps(s: Arc)
    requires Structure(s) && s.b2 != []
    ensures Structure(DropB2(s)) && |DropB2(s).b2| == |s.b2| - 1
    ensures forall k :: CopiesIn(DropB2(s), k) <= CopiesIn(s, k)
  {
    var k := s.b2[|s.b2| - 1];
    assert CopiesIn(s, k) <= 1;
    PopCount(s.b2);
    var r := DropB2(s);
    forall x
      ensures Copies(r.t1, r.t2, r.b1, r.b2, x) <= Copies(s.t1, s.t2, s.b1, s.b2, x)
    {
    }
  }

  lemma DropT1Keeps(s: Arc)
    requires Structure(s) && s.t1 != []
    ensures var r := s.(t1 := PopBack(s.t1), evictions := s.evictions + 1);
            && Structure(r) && |r.t1| == |s.t1| - 1
            && forall k :: CopiesIn(r, k) <= CopiesIn(s, k)
  {
    assert CopiesIn(s, s.t1[|s.t1| - 1]) <= 1;
    PopCount(s.t1);
    var r := s.(t1 := PopBack(s.t1), evictions := s.evictions + 1);
    forall x
      ensures Copies(r.t1, r.t2, r.b1, r.b2, x) <= Copies(s.t1, s.t2, s.b1, s.b2, x)
    {
    }
  }

  /** The code's test for a full directory, whose right-hand side wraps, holds when the directory is full. */
  predicate TrimsWhenDue(s: Arc) {
    s.cap <= Total(s) ==> (Total(s) == W32(2 * s.cap) <==> Total(s) == 2 * s.cap)
  }

  /**
   * Doubling the capacity wraps from 2^31 on, but changes no access: with a key in no list, the
   * lists hold fewer than 2^32 keys, so neither test succeeds then.
   */
  lemma DoublingIsHarmless(s: Arc, k: Key)
    requires Structure(s) && s.cap < WORD && CopiesIn(s, k) == 0
    ensures TrimsWhenDue(s)
    ensures s.cap >= HALF ==> Total(s) < 2 * s.cap
  {
    KeysAreFew(s);
    DoubleWrapped(s.cap);
    hide Structure, W32;
  }

  lemma DoubleWrapped(c: nat)
    requires c < WORD
    ensures W32(2 * c) == if c < HALF then 2 * c else 2 * c - WORD
  {
  }

  /** What making room leaves, provided every list it pops is non-empty. */
  lemma MakeRoomKeeps(s: Arc)
    requires Sound(s) && TrimsWhenDue(s) && (|s.t1| + |s.b1| < s.cap && Total(s) == 2 * s.cap ==> s.b2 != [])
    ensures var r := MakeRoom(s);
            && Structure(r) && r.cap == s.cap && r.p == s.p
            && |r.t1| + |r.b1| < s.cap && Total(r) < 2 * s.cap
            && (forall k :: CopiesIn(r, k) <= CopiesIn(s, k))
            && (Inv(s) ==> var full := Resident(s) == s.cap;
                           && Resident(r) + One(full) == Resident(s)
                           && r.evictions == s.evictions + One(full)
                           && (r.b1 != [] || r.b2 != [] ==> full))
  {
    hide Structure, CopiesIn, Replace, PopBack, W32;
    if |s.t1| + |s.b1| == s.cap {
      if |s.t1| < s.cap {
        DropB1Keeps(s);
        ReplaceMoves(DropB1(s), false);
      } else {
        DropT1Keeps(s);
      }
    } else if Total(s) >= s.cap {
      if Total(s) == 2 * s.cap {
        DropB2Keeps(s);
        ReplaceMoves(DropB2(s), false);
      } else {
        ReplaceMoves(s, false);
      }
    }
  }

  lemma Arrive(s: Arc, k: Key)
    requires Structure(s) && CopiesIn(s, k) == 0
    ensures Structure(s.(t1 := [k] + s.t1))
  {
    PushCount(s.t1, k);
    forall x
      ensures Copies([k] + s.t1, s.t2, s.b1, s.b2, x)
           == Copies(s.t1, s.t2, s.b1, s.b2, x) + if x == k then 1 else 0
    {
    }
  }

  lemma MissKeeps(s: Arc, k: Key)
    requires Sound(s) && CopiesIn(s, k) == 0
    requires |s.t1| + |s.b1| < s.cap && Total(s) == 2 * s.cap ==> s.b2 != []
    ensures Sound(Miss(s, k))
    ensures Inv(s) ==> var full := Resident(s) == s.cap;
                       && Inv(Miss(s, k))
                       && Resident(Miss(s, k)) == Resident(s) + One(!full)
                       && Miss(s, k).evictions == s.evictions + One(full)
  {
    hide Structure, MakeRoom, CopiesIn, W32;
    var s' := s.(misses := s.misses + 1);
    SameLists(s, s');
    DoublingIsHarmless(s, k);
    MakeRoomKeeps(s');
    SameCopies(s, s', k);
    Arrive(MakeRoom(s'), k);
  }

  lemma SameCopies(s: Arc, s': Arc, k: Key)
    requires s'.t1 == s.t1 && s'.t2 == s.t2 && s'.b1 == s.b1 && s'.b2 == s.b2
    ensures CopiesIn(s', k) == CopiesIn(s, k)
  {
  }

  // --- one access ---

  lemma Membership(s: Arc, k: Key)
    requires Structure(s)
    ensures k in s.inGhost <==> k in s.b1 || k in s.b2
    ensures k !in s.t1 && k !in s.t2 && k !in s.inGhost ==> CopiesIn(s, k) == 0
  {
  }

  /** A remembered key is not resident, and is remembered on one side only. */
  lemma Apart(s: Arc, k: Key)
    requires Structure(s)
    ensures k in s.b1 || k in s.b2 ==> k !in s.t1 && k !in s.t2
    ensures k in s.b2 ==> k !in s.b1
  {
    assert CopiesIn(s, k) <= 1;
  }

  lemma GrowIs(s: Arc)
    ensures Grow(s) <= s.cap
  {
  }

  /** At any capacity, an access the code defines keeps the lists apart and the flags exact. */
  lemma StepKeepsStructure(s: Arc, k: Key)
    requires Structure(s) && Defined(s, k)
    ensures Structure(Step(s, k))
  {
    hide Hit, GhostHit1, GhostHit2, Structure, CopiesIn, Shrink, Grow, Evicts, MakeRoom, Replace, W32;
    Membership(s, k);
    if k in s.t1 || k in s.t2 {
      HitKeeps(s, k);
    } else if k in s.b1 {
      GhostHit1Keeps(s, k);
    } else if k in s.b2 {
      GhostHit2Keeps(s, k, Shrink(s));
    } else {
      var s' := s.(misses := s.misses + 1);
      SameLists(s, s');
      SameCopies(s, s', k);
      MakeRoomApart(s');
      Arrive(MakeRoom(s'), k);
    }
  }

  lemma MakeRoomApart(s: Arc)
    requires Structure(s)
    requires if |s.t1| + |s.b1| == s.cap then |s.t1| < s.cap || s.t1 != []
             else s.cap <= Total(s) == W32(2 * s.cap) ==> s.b2 != []
    ensures Structure(MakeRoom(s)) && forall k :: CopiesIn(MakeRoom(s), k) <= CopiesIn(s, k)
  {
    hide Structure, CopiesIn, Replace, PopBack, W32;
    if |s.t1| + |s.b1| == s.cap {
      if |s.t1| < s.cap {
        DropB1Keeps(s);
        ReplaceMoves(DropB1(s), false);
      } else {
        DropT1Keeps(s);
      }
    } else if Total(s) >= s.cap {
      if Total(s) == W32(2 * s.cap) {
        DropB2Keeps(s);
        ReplaceMoves(DropB2(s), false);
      } else {
        ReplaceMoves(s, false);
      }
    }
  }

  /** Whatever the target has become, an access the code defines keeps the lists sound. */
  lemma StepKeepsSound(s: Arc, k: Key)
    requires Sound(s) && Defined(s, k)
    ensures Sound(Step(s, k)) && Step(s, k).cap == s.cap
  {
    hide Hit, GhostHit1, GhostHit2, Miss, Structure, CopiesIn, Shrink, Grow, Evicts;
    Membership(s, k);
    if k in s.t1 || k in s.t2 {
      HitKeeps(s, k);
    } else if k in s.b1 {
      GrowIs(s);
      GhostHit1Keeps(s, k);
    } else if k in s.b2 {
      ShrinkIsWord(s);
      GhostHit2Keeps(s, k, Shrink(s));
    } else {
      DoublingIsHarmless(s, k);
      MissKeeps(s, k);
      MissCap(s, k);
    }
  }

  lemma MissCap(s: Arc, k: Key)
    ensures Miss(s, k).cap == s.cap && Miss(s, k).p == s.p
  {
  }

  lemma ShrinkIsWord(s: Arc)
    ensures Shrink(s) < WORD
  {
  }

  /** A cache within its bounds never takes an element from an empty list, and its divisions are defined. */
  lemma InvIsDefined(s: Arc, k: Key)
    requires Inv(s)
    ensures Defined(s, k)
  {
    hide Structure, CopiesIn, W32;
    KeysAreFew(s);
    Membership(s, k);
    if k in s.b1 {
      GhostsDivide(s, |s.b2|, |s.b1|);
    } else if k in s.b2 {
      GhostsDivide(s, |s.b1|, |s.b2|);
    } else if k !in s.t1 && k !in s.t2 {
      DoublingIsHarmless(s, k);
    }
  }

  lemma GhostsDivide(s: Arc, a: nat, b: nat)
    requires s.cap > 0 && Resident(s) == s.cap && Resident(s) + a + b <= WORD && b > 0
    ensures Divides(Signed(a), Signed(b))
  {
    assert W32(a) == a && W32(b) == b;
    hide W32;
  }

  /**
   * The access that overfills the cache: a hit in `b2` while `t2` is empty, with a target so
   * small that one less wraps beyond the capacity, or already above it since it wrapped before.
   */
  predicate Overfills(s: Arc, k: Key) {
    k in s.b2 && s.t2 == [] && ((s.p == 0 && s.cap < WORD - 1) || s.p > s.cap + 1)
  }

  /** With `t2` empty the whole cache is `t1`, nothing of that side is remembered, and the step is one. */
  lemma NothingToEvict(s: Arc, k: Key)
    requires Inv(s) && k in s.b2
    ensures Resident(s) == s.cap
    ensures Evicts(Retarget(s, Shrink(s)), true) <==> !Overfills(s, k)
  {
    hide Structure, Shrink;
    if s.t2 == [] {
      assert s.b1 == [] && |s.t1| == s.cap;
      StepOfOne(s);
    }
  }

  lemma StepOfOne(s: Arc)
    requires s.b1 == [] && s.p < WORD
    ensures Shrink(s) == if s.p == 0 then WORD - 1 else s.p - 1
  {
    assert Ratio(0, |s.b2|) == 0;
    assert Delta(s) == 1;
    hide Ratio;
  }

  /**
   * An access overfills the cache, and so breaks the invariant, if and only if it meets the
   * condition above.  A subtraction that wraps does no harm by itself.
   */
  lemma StepKeepsInvIff(s: Arc, k: Key)
    requires Inv(s)
    ensures Inv(Step(s, k)) <==> !Overfills(s, k)
    ensures Resident(Step(s, k)) > s.cap <==> Overfills(s, k)
    ensures !Overfills(s, k) && Resident(s) == s.cap ==> Resident(Step(s, k)) == s.cap
  {
    hide Hit, GhostHit1, GhostHit2, Miss, Structure, CopiesIn, Shrink, Grow, Evicts, FromT1;
    InvIsDefined(s, k);
    StepKeepsSound(s, k);
    Membership(s, k);
    Apart(s, k);
    if k in s.t1 || k in s.t2 {
      HitKeeps(s, k);
    } else if k in s.b1 {
      SomethingToEvict(s, Grow(s));
      GhostHit1Keeps(s, k);
    } else if k in s.b2 {
      NothingToEvict(s, k);
      GhostHit2Keeps(s, k, Shrink(s));
    } else {
      MissKeeps(s, k);
    }
  }

  lemma SomethingToEvict(s: Arc, p: nat)
    requires Inv(s) && s.b1 != []
    ensures Evicts(Retarget(s, p), false) && Resident(s) == s.cap
  {
    hide Structure;
  }

  /**
   * Every replacement the cache asks for evicts exactly one key, unless the access overfills
   * it: a miss on a full cache evicts one key and keeps it full, any other access evicts none.
   */
  lemma OneEvictionPerMissWhenFull(s: Arc, k: Key)
    requires Inv(s)
    ensures var hit := k in s.t1 || k in s.t2;
            var full := Resident(s) == s.cap;
            && Step(s, k).evictions == s.evictions + One(!hit && full && !Overfills(s, k))
            && Resident(Step(s, k)) == Resident(s) + One(!hit && (!full || Overfills(s, k)))
  {
    hide Hit, GhostHit1, GhostHit2, Miss, Structure, CopiesIn, Shrink, Grow, Evicts, FromT1;
    InvIsDefined(s, k);
    Membership(s, k);
    Apart(s, k);
    if k in s.t1 || k in s.t2 {
      HitKeeps(s, k);
    } else if k in s.b1 {
      SomethingToEvict(s, Grow(s));
      GhostHit1Keeps(s, k);
    } else if k in s.b2 {
      NothingToEvict(s, k);
      GhostHit2Keeps(s, k, Shrink(s));
    } else {
      MissKeeps(s, k);
    }
  }

  // --- the subtraction the clamp was meant for ---

  /** The target the `0u` intends. */
  function Clamped(s: Arc): nat {
    Max(s.p - Delta(s), 0)
  }

  function ClampedStep(s: Arc, k: Key): Arc {
    if k in s.t1 || k in s.t2 then Hit(s, k)
    else if k in s.inGhost then
      if k in s.b1 then GhostHit1(s, k) else GhostHit2(s, k, Clamped(s))
    else Miss(s, k)
  }

  /**
   * With a signed subtraction target and capacity are kept unconditionally.  As long as the
   * subtraction does not wrap the two caches are one.
   */
  lemma ClampedKeepsInv(s: Arc, k: Key)
    requires Inv(s) && s.p <= s.cap
    ensures var r := ClampedStep(s, k);
            && Inv(r) && r.p <= r.cap == s.cap
            && (Resident(s) == s.cap ==> Resident(r) == s.cap)
    ensures k in s.b2 ==> (ClampedStep(s, k) == Step(s, k) <== Delta(s) <= s.p)
    ensures k !in s.b2 ==> ClampedStep(s, k) == Step(s, k)
  {
    hide Hit, GhostHit1, GhostHit2, Miss, Structure, CopiesIn, Delta, Grow, Evicts, FromT1, W32;
    InvIsDefined(s, k);
    Membership(s, k);
    Apart(s, k);
    NoWrap(s);
    if k in s.t1 || k in s.t2 {
      HitKeeps(s, k);
    } else if k in s.b1 {
      GrowIs(s);
      SomethingToEvict(s, Grow(s));
      GhostHit1Keeps(s, k);
    } else if k in s.b2 {
      LowTargetEvicts(s, k, Clamped(s));
      GhostHit2Keeps(s, k, Clamped(s));
    } else {
      MissKeeps(s, k);
      MissCap(s, k);
    }
  }

  lemma NoWrap(s: Arc)
    requires s.p < WORD
    ensures Delta(s) <= s.p ==> Shrink(s) == Clamped(s)
    ensures Clamped(s) <= s.p
  {
    hide Ratio;
  }

  lemma LowTargetEvicts(s: Arc, k: Key, p: nat)
    requires Inv(s) && k in s.b2 && p <= s.cap
    ensures Evicts(Retarget(s, p), true) && Resident(s) == s.cap
  {
    hide Structure;
  }
}
