/** Every capacity up to 2^31 has a trace that ends by overfilling the adaptive replacement cache. */
module ArcOverfill {
  import opened Seqs
  import opened Words
  import opened ArcSpec
  import opened ArcRuns

  ghost predicate KeysBelow(s: Arc, n: nat) {
    forall k :: k in s.t1 || k in s.t2 || k in s.b1 || k in s.b2 ==> k < n
  }

  /** A state within its bounds whose `b1` is empty, with the lengths of its other lists. */
  ghost predicate Stage(s: Arc, p: nat, t1: nat, t2: nat, b2: nat, n: nat) {
    && Inv(s) && s.p == p && |s.t1| == t1 && |s.t2| == t2 && |s.b1| == 0 && |s.b2| == b2
    && KeysBelow(s, n)
  }

  lemma Absent(s: Arc, k: Key)
    requires Structure(s) && KeysBelow(s, k)
    ensures k !in s.t1 && k !in s.t2 && k !in s.b1 && k !in s.b2 && k !in s.inGhost && CopiesIn(s, k) == 0
  {
  }

  /** A new key in a cache that is not full joins `t1`, and moves to `t2` when used again. */
  lemma Fill(s: Arc, k: Key)
    requires Stage(s, 0, 0, k, 0, k) && k < s.cap
    ensures !Overfills(s, k) && !Overfills(Step(s, k), k) && Step(Step(s, k), k).cap == s.cap
    ensures Stage(Step(Step(s, k), k), 0, 0, k + 1, 0, k + 1)
  {
    hide Inv, CopiesIn;
    InvIsSound(s);
    Absent(s, k);
    assert s.t1 == [];
    var r := Step(s, k);
    assert r == s.(t1 := [k], misses := s.misses + 1);
    StepKeepsInvIff(s, k);
    StepKeepsInvIff(r, k);
    assert Without([k], k) == [];
    assert Step(r, k) == r.(t1 := [], t2 := [k] + s.t2, hits := s.hits + 1);
  }

  lemma Popped(s: seq<Key>, n: nat)
    requires s != [] && forall k :: k in s ==> k < n
    ensures |PopBack(s)| == |s| - 1 && forall k :: k in PopBack(s) ==> k < n
  {
    forall k | k in PopBack(s)
      ensures k in s
    {
      var i :| 0 <= i < |PopBack(s)| && PopBack(s)[i] == k;
      assert s[i] == k;
    }
  }

  /** A new key in a full cache that evicts from `t2`. */
  lemma Displace(s: Arc, p: nat, t1: nat, t2: nat, b2: nat, k: Key)
    requires Stage(s, p, t1, t2, b2, k) && t1 + t2 == s.cap && b2 < s.cap && t2 > 0 && (t1 == 0 || t1 <= p)
    ensures !Overfills(s, k) && Step(s, k).cap == s.cap
    ensures Stage(Step(s, k), p, t1 + 1, t2 - 1, b2 + 1, k + 1)
  {
    hide Inv, Structure, CopiesIn, PopBack;
    InvIsSound(s);
    Absent(s, k);
    DoublingIsHarmless(s, k);
    StepKeepsInvIff(s, k);
    Popped(s.t2, k);
    var old2 := s.t2[|s.t2| - 1];
    var r := Step(s, k);
    assert r.t1 == [k] + s.t1 && r.t2 == PopBack(s.t2) && r.b1 == s.b1 && r.b2 == [old2] + s.b2;
  }

  /** The first hit in `b2` wraps the target, which does no harm yet: `t2` gives up its oldest key. */
  lemma Wrap(s: Arc, k: Key)
    requires 1 < s.cap <= HALF && Stage(s, 0, 1, s.cap - 1, 1, s.cap + 1) && s.b2 == [k]
    ensures !Overfills(s, k) && Step(s, k).cap == s.cap
    ensures Stage(Step(s, k), WORD - 1, 1, s.cap - 1, 1, s.cap + 1)
  {
    hide Inv, PopBack, Step;
    InvIsSound(s);
    StepKeepsInvIff(s, k);
    WrapStep(s, k);
    Popped(s.t2, s.cap + 1);
    assert k in s.b2 && s.t2[|s.t2| - 1] in s.t2;
  }

  lemma WrapStep(s: Arc, k: Key)
    requires Structure(s) && s.p == 0 && |s.t1| == 1 && s.t2 != [] && s.b1 == [] && s.b2 == [k]
    ensures var r := Step(s, k);
            && r.cap == s.cap && r.p == WORD - 1
            && r.t1 == s.t1 && r.t2 == [k] + PopBack(s.t2) && r.b1 == [] && r.b2 == [s.t2[|s.t2| - 1]]
  {
    hide Structure, PopBack, Shrink;
    Membership(s, k);
    Apart(s, k);
    StepOfOne(s);
    WrapWithout(s.t2[|s.t2| - 1], k);
  }

  lemma WrapWithout(x: Key, k: Key)
    ensures x != k ==> Without([x] + [k], k) == [x]
  {
    assert ([x] + [k])[0] == x;
    assert x != k ==> IndexOf([x] + [k], k) == 1;
  }

  // --- the trace ---

  lemma Extend(cap: nat, keys: seq<Key>, k: Key)
    requires NeverOverfills(cap, keys) && !Overfills(Run(cap, keys), k)
    ensures NeverOverfills(cap, keys + [k]) && Run(cap, keys + [k]) == Step(Run(cap, keys), k)
  {
    hide Run, Overfills;
    RunNext(cap, keys, k);
    forall i | 0 <= i < |keys + [k]|
      ensures !Overfills(Run(cap, (keys + [k])[..i]), (keys + [k])[i])
    {
      assert (keys + [k])[..i] == keys[..i];
      assert i == |keys| ==> keys[..i] == keys;
    }
  }

  lemma {:induction false} FillAll(cap: nat, n: nat) returns (keys: seq<Key>)
    requires n <= cap <= HALF && 0 < cap
    ensures |keys| == 2 * n && NeverOverfills(cap, keys)
    ensures Stage(Run(cap, keys), 0, 0, n, 0, n) && Run(cap, keys).cap == cap
  {
    hide Step, Overfills, Inv, NeverOverfills;
    if n == 0 {
      keys := [];
      Start(cap);
    } else {
      keys := FillAll(cap, n - 1);
      Fill(Run(cap, keys), n - 1);
      Extend(cap, keys, n - 1);
      Extend(cap, keys + [n - 1], n - 1);
      keys := keys + [n - 1] + [n - 1];
    }
  }

  lemma Start(cap: nat)
    requires 0 < cap < WORD
    ensures NeverOverfills(cap, []) && Stage(Run(cap, []), 0, 0, 0, 0, 0) && Run(cap, []).cap == cap
  {
    InitKeepsInv(cap);
  }

  /** New keys push all of `t2` out, into `b2`. */
  lemma {:induction false} DisplaceAll(cap: nat, before: seq<Key>, n: nat) returns (keys: seq<Key>)
    requires 1 <= n <= cap <= HALF && NeverOverfills(cap, before) && Run(cap, before).cap == cap
    requires Stage(Run(cap, before), WORD - 1, 1, cap - 1, 1, cap + 1)
    ensures |keys| == |before| + n - 1 && NeverOverfills(cap, keys) && Run(cap, keys).cap == cap
    ensures Stage(Run(cap, keys), WORD - 1, n, cap - n, n, cap + n)
  {
    hide Step, Overfills, Inv, NeverOverfills, Run;
    if n == 1 {
      keys := before;
    } else {
      keys := DisplaceAll(cap, before, n - 1);
      Displace(Run(cap, keys), WORD - 1, n - 1, cap - n + 1, n - 1, cap + n - 1);
      Extend(cap, keys, cap + n - 1);
      keys := keys + [cap + n - 1];
    }
  }

  /**
   * However large the cache, up to capacity 2^31: after a trace of at most `3 * cap + 1`
   * accesses within bounds, one more access overfills it.
   */
  lemma EveryCapacityOverfills(cap: nat) returns (keys: seq<Key>, k: Key)
    requires 0 < cap <= HALF
    ensures |keys| <= 3 * cap + 1 && NeverOverfills(cap, keys)
    ensures Overfills(Run(cap, keys), k) && Resident(Run(cap, keys + [k])) > cap
  {
    hide Step, Overfills, Inv, NeverOverfills, Run;
    keys := FillAll(cap, cap);
    Displace(Run(cap, keys), 0, 0, cap, 0, cap);
    Extend(cap, keys, cap);
    keys := keys + [cap];
    k := Run(cap, keys).b2[0];
    if cap > 1 {
      Wrap(Run(cap, keys), k);
      Extend(cap, keys, k);
      keys := DisplaceAll(cap, keys + [k], cap);
      k := Run(cap, keys).b2[0];
    }
    EmptyT2(Run(cap, keys), k);
    RunNext(cap, keys, k);
    StepKeepsInvIff(Run(cap, keys), k);
  }

  lemma EmptyT2(s: Arc, k: Key)
    requires s.t2 == [] && k in s.b2 && s.cap <= HALF && (s.p == 0 || s.p == WORD - 1)
    ensures Overfills(s, k)
  {
  }
}
