/**
 * One access of the adaptive replacement cache, said without the code's own functions: what it
 * does to the target, and which key leaves which list.
 */
module ArcRules {
  import opened Seqs
  import opened Words
  import opened ArcSpec
  import opened ArcRuns
  import Order = ArcOrder

  /**
   * How far a hit in a ghost list of length `own` moves the target, the other ghost list having
   * length `other`: their ratio rounded down, and at least one.
   */
  ghost predicate IsStep(d: nat, own: nat, other: nat) {
    if other < own then d == 1 else d * own <= other < (d + 1) * own
  }

  /** The target after an access, for a step `d` and an unsigned difference as the code has it. */
  ghost predicate Retargeted(s: Arc, k: Key, p: nat, d: nat) {
    if k in s.b1 then
      var sum := if s.p + d < WORD then s.p + d else s.p + d - WORD;
      IsStep(d, |s.b1|, |s.b2|) && p == if sum < s.cap then sum else s.cap
    else if k in s.b2 then
      IsStep(d, |s.b2|, |s.b1|) && p == if d <= s.p then s.p - d else s.p - d + WORD
    else p == s.p
  }

  /** The same for the difference the clamp intends. */
  ghost predicate RetargetedClamped(s: Arc, k: Key, p: nat, d: nat) {
    if k in s.b2 then IsStep(d, |s.b2|, |s.b1|) && p == if d <= s.p then s.p - d else 0
    else Retargeted(s, k, p, d)
  }

  function Front(l: seq<Key>): seq<Key>
    requires l != []
  {
    l[..|l| - 1]
  }

  function Oldest(l: seq<Key>): Key
    requires l != []
  {
    l[|l| - 1]
  }

  /** A resident key that is hit becomes the newest of `t2`. */
  ghost predicate HitRule(s: Arc, k: Key, r: Arc) {
    && r.t1 == Without(s.t1, k) && r.t2 == [k] + Without(s.t2, k)
    && r.b1 == s.b1 && r.b2 == s.b2
  }

  /**
   * A hit in `b1`: `t1` gives up its oldest key iff it is longer than the new target, else `t2`
   * does; the key given up is the newest its side remembers.
   */
  ghost predicate GhostRule1(s: Arc, k: Key, r: Arc) {
    if |s.t1| > r.p then
      && r.t1 == Front(s.t1) && r.b1 == [Oldest(s.t1)] + Without(s.b1, k)
      && r.t2 == [k] + s.t2 && r.b2 == s.b2
    else if s.t2 != [] then
      && r.t1 == s.t1 && r.b1 == Without(s.b1, k)
      && r.t2 == [k] + Front(s.t2) && r.b2 == [Oldest(s.t2)] + s.b2
    else
      r.t1 == s.t1 && r.b1 == Without(s.b1, k) && r.t2 == [k] && r.b2 == s.b2
  }

  /** A hit in `b2`: the same, except that a `t1` of exactly the length of the target gives up a key too. */
  ghost predicate GhostRule2(s: Arc, k: Key, r: Arc) {
    if s.t1 != [] && |s.t1| >= r.p then
      && r.t1 == Front(s.t1) && r.b1 == [Oldest(s.t1)] + s.b1
      && r.t2 == [k] + s.t2 && r.b2 == Without(s.b2, k)
    else if s.t2 != [] then
      && r.t1 == s.t1 && r.b1 == s.b1
      && r.t2 == [k] + Front(s.t2) && r.b2 == [Oldest(s.t2)] + Without(s.b2, k)
    else
      r.t1 == s.t1 && r.b1 == s.b1 && r.t2 == [k] && r.b2 == Without(s.b2, k)
  }

  /**
   * A new key with `b1` and `b2` shortened where the directory is full: `t1` gives up its oldest
   * key iff it is longer than the target, else `t2` does.
   */
  ghost predicate ReplaceRule(s: Arc, k: Key, b1: seq<Key>, b2: seq<Key>, r: Arc) {
    if |s.t1| > s.p then
      && r.t1 == [k] + Front(s.t1) && r.b1 == [Oldest(s.t1)] + b1
      && r.t2 == s.t2 && r.b2 == b2
    else if s.t2 != [] then
      && r.t1 == [k] + s.t1 && r.b1 == b1
      && r.t2 == Front(s.t2) && r.b2 == [Oldest(s.t2)] + b2
    else
      r.t1 == [k] + s.t1 && r.b1 == b1 && r.t2 == s.t2 && r.b2 == b2
  }

  /** A key in no list becomes the newest of `t1`. */
  ghost predicate MissRule(s: Arc, k: Key, r: Arc) {
    if |s.t1| + |s.b1| == s.cap then
      if |s.b1| > 0 then ReplaceRule(s, k, Front(s.b1), s.b2, r)
      else s.t1 != [] && r.t1 == [k] + Front(s.t1) && r.t2 == s.t2 && r.b1 == [] && r.b2 == s.b2
    else if Total(s) < s.cap then
      r.t1 == [k] + s.t1 && r.t2 == s.t2 && r.b1 == s.b1 && r.b2 == s.b2
    else if Total(s) == 2 * s.cap then
      s.b2 != [] && ReplaceRule(s, k, s.b1, Front(s.b2), r)
    else ReplaceRule(s, k, s.b1, s.b2, r)
  }

  ghost predicate ListRule(s: Arc, k: Key, r: Arc) {
    if k in s.t1 || k in s.t2 then HitRule(s, k, r)
    else if k in s.b1 then GhostRule1(s, k, r)
    else if k in s.b2 then GhostRule2(s, k, r)
    else MissRule(s, k, r)
  }

  /** One access from `s` to `r`, target and lists. */
  ghost predicate Follows(s: Arc, k: Key, r: Arc) {
    (exists d: nat :: Retargeted(s, k, r.p, d)) && ListRule(s, k, r)
  }

  /** The ghost lists are short enough for the code's signed division to be the true one. */
  predicate GhostsFit(s: Arc) {
    |s.b1| + |s.b2| <= HALF
  }

  // --- the target ---

  lemma RatioIs(own: nat, other: nat) returns (d: nat)
    requires own > 0 && own + other <= HALF
    ensures d == Max(1, Ratio(other, own)) && IsStep(d, own, other)
  {
    assert W32(own) == own && W32(other) == other;
    assert own < HALF ==> Ratio(other, own) == other / own;
    assert own == HALF ==> other == 0 && Ratio(other, own) == 0;
    hide Ratio;
    d := Max(1, Ratio(other, own));
    if other >= own {
      Quotient(own, other);
    } else if own < HALF {
      DivisionUnique(other, own, 0, other);
    }
  }

  lemma Quotient(own: nat, other: nat)
    requires 0 < own <= other
    ensures var d := other / own;
            d >= 1 && d * own <= other < (d + 1) * own
  {
    var d := other / own;
    assert other == d * own + other % own;
    assert (d + 1) * own == d * own + own;
  }

  lemma ListsApart(s: Arc, k: Key)
    requires Structure(s)
    ensures k in s.inGhost <==> k in s.b1 || k in s.b2
    ensures k in s.b1 || k in s.b2 ==> k !in s.t1 && k !in s.t2
    ensures k in s.b2 ==> k !in s.b1
  {
    hide Structure;
    Membership(s, k);
    Apart(s, k);
  }

  lemma TargetOf(s: Arc, k: Key)
    ensures var r := Step(s, k);
            r.p == if k in s.t1 || k in s.t2 || k !in s.inGhost then s.p
                   else if k in s.b1 then Grow(s) else Shrink(s)
    ensures var r := ClampedStep(s, k);
            r.p == if k in s.t1 || k in s.t2 || k !in s.inGhost then s.p
                   else if k in s.b1 then Grow(s) else Clamped(s)
  {
    hide Grow, Shrink, Clamped, Without, PopBack;
  }

  lemma Raised(s: Arc, d: nat)
    requires s.p < WORD && d < WORD && d == Max(1, Ratio(|s.b2|, |s.b1|))
    ensures var sum := if s.p + d < WORD then s.p + d else s.p + d - WORD;
            Grow(s) == if sum < s.cap then sum else s.cap
  {
    hide Ratio;
    WrapMultiple(s.p + d, -1);
  }

  lemma Lowered(s: Arc, d: nat)
    requires s.p < WORD && d < WORD && d == Max(1, Ratio(|s.b1|, |s.b2|))
    ensures Shrink(s) == if d <= s.p then s.p - d else s.p - d + WORD
    ensures Clamped(s) == if d <= s.p then s.p - d else 0
  {
    hide Ratio;
    WrapMultiple(s.p - d, 1);
  }

  /**
   * A hit in `b1` raises the target by the step, up to the capacity; a hit in `b2` lowers it by
   * the step, wrapping below zero; no other access changes it.
   */
  lemma StepMovesTarget(s: Arc, k: Key) returns (d: nat)
    requires Structure(s) && s.cap < WORD && s.p < WORD && GhostsFit(s)
    ensures Retargeted(s, k, Step(s, k).p, d)
    ensures RetargetedClamped(s, k, ClampedStep(s, k).p, d)
  {
    d := 1;
    ListsApart(s, k);
    TargetOf(s, k);
    hide Structure, Step, ClampedStep, IsStep, Ratio, Grow, Shrink, Clamped, Max, W32;
    if k in s.b1 {
      d := RatioIs(|s.b1|, |s.b2|);
      StepFits(d, |s.b1|, |s.b2|);
      Raised(s, d);
    } else if k in s.b2 {
      d := RatioIs(|s.b2|, |s.b1|);
      StepFits(d, |s.b2|, |s.b1|);
      Lowered(s, d);
    }
  }

  lemma StepFits(d: nat, own: nat, other: nat)
    requires IsStep(d, own, other) && own > 0 && own + other <= HALF
    ensures d < WORD
  {
    if other >= own {
      MultipleMonotone(1, own, d);
    }
  }

  /** The step is determined by the two lengths. */
  lemma StepIsUnique(d: nat, e: nat, own: nat, other: nat)
    requires own > 0 && IsStep(d, own, other) && IsStep(e, own, other)
    ensures d == e
  {
    if other >= own {
      DivisionUnique(other, own, d, other - d * own);
      DivisionUnique(other, own, e, other - e * own);
    }
  }

  // --- the lists ---

  lemma PopIsFront(l: seq<Key>)
    requires l != []
    ensures PopBack(l) == Front(l)
  {
  }

  /** A replacement, by the lengths of the lists alone. */
  lemma ReplaceIs(s: Arc, inB2: bool)
    ensures var r := Replace(s, inB2);
            && r.p == s.p && r.cap == s.cap
            && if s.t1 != [] && (|s.t1| > s.p || (inB2 && |s.t1| == s.p)) then
                 r.t1 == Front(s.t1) && r.b1 == [Oldest(s.t1)] + s.b1 && r.t2 == s.t2 && r.b2 == s.b2
               else if s.t2 != [] then
                 r.t1 == s.t1 && r.b1 == s.b1 && r.t2 == Front(s.t2) && r.b2 == [Oldest(s.t2)] + s.b2
               else r.t1 == s.t1 && r.b1 == s.b1 && r.t2 == s.t2 && r.b2 == s.b2
  {
    if s.t1 != [] {
      PopIsFront(s.t1);
    }
    if s.t2 != [] {
      PopIsFront(s.t2);
    }
    hide PopBack;
  }

  lemma OldestIsIn(l: seq<Key>)
    requires l != []
    ensures Oldest(l) in l
  {
  }

  lemma Hits(s: Arc, k: Key)
    requires Structure(s) && (k in s.t1 || k in s.t2)
    ensures HitRule(s, k, Hit(s, k))
  {
    assert CopiesIn(s, k) <= 1;
    assert k in s.t1 ==> Without(s.t2, k) == s.t2;
    assert k !in s.t1 ==> Without(s.t1, k) == s.t1;
  }

  lemma GhostHits1(s: Arc, k: Key)
    requires k in s.b1 && k !in s.t1 && k !in s.t2
    ensures GhostRule1(s, k, GhostHit1(s, k))
  {
    hide Grow, Replace, Without, Oldest, Front;
    ReplaceIs(s.(p := Grow(s), misses := s.misses + 1), false);
    if s.t1 != [] {
      OldestIsIn(s.t1);
      Order.EraseSecond([Oldest(s.t1)], s.b1, k);
    }
    assert [k] + [] == [k];
  }

  lemma GhostHits2(s: Arc, k: Key, p: nat)
    requires k in s.b2 && k !in s.t1 && k !in s.t2
    ensures GhostRule2(s, k, GhostHit2(s, k, p))
  {
    hide Replace, Without, Oldest, Front;
    ReplaceIs(s.(p := p, misses := s.misses + 1), true);
    if s.t2 != [] {
      OldestIsIn(s.t2);
      Order.EraseSecond([Oldest(s.t2)], s.b2, k);
    }
    assert [k] + [] == [k];
  }

  lemma Misses(s: Arc, k: Key)
    requires TrimsWhenDue(s)
    requires if |s.t1| + |s.b1| == s.cap then |s.t1| < s.cap || s.t1 != []
             else s.cap <= Total(s) == W32(2 * s.cap) ==> s.b2 != []
    ensures MissRule(s, k, Miss(s, k)) && Miss(s, k).p == s.p
  {
    hide Replace, PopBack, W32, Oldest, Front;
    var s' := s.(misses := s.misses + 1);
    ReplaceIs(DropB1(s'), false);
    ReplaceIs(DropB2(s'), false);
    ReplaceIs(s', false);
    if s.b1 != [] {
      PopIsFront(s.b1);
    }
    if s.b2 != [] {
      PopIsFront(s.b2);
    }
    if s.t1 != [] {
      PopIsFront(s.t1);
    }
  }

  lemma StepKeepsRule(s: Arc, k: Key)
    requires Structure(s) && s.cap < WORD && Defined(s, k)
    ensures ListRule(s, k, Step(s, k)) && ListRule(s, k, ClampedStep(s, k))
  {
    hide Structure, Hit, GhostHit1, GhostHit2, Miss, HitRule, GhostRule1, GhostRule2, MissRule, W32, Divides, Ratio,
         Shrink, Clamped, TrimsWhenDue;
    ListsApart(s, k);
    Membership(s, k);
    if k in s.t1 || k in s.t2 {
      Hits(s, k);
    } else if k in s.b1 {
      GhostHits1(s, k);
    } else if k in s.b2 {
      GhostHits2(s, k, Shrink(s));
      GhostHits2(s, k, Clamped(s));
    } else {
      DoublingIsHarmless(s, k);
      Misses(s, k);
    }
  }

  // --- the whole access ---

  lemma InvFits(s: Arc)
    requires Inv(s)
    ensures GhostsFit(s)
  {
    hide Structure;
    KeysAreFew(s);
  }

  /** Overfilled or not: up to capacity 2^30 the ghost lists never get too long. */
  lemma SmallFits(s: Arc)
    requires Sound(s) && 2 * s.cap <= HALF
    ensures GhostsFit(s)
  {
  }

  lemma StepFollows(s: Arc, k: Key)
    requires Structure(s) && s.cap < WORD && s.p < WORD && GhostsFit(s) && Defined(s, k)
    ensures Follows(s, k, Step(s, k))
  {
    hide Structure, Step, ClampedStep, ListRule, Retargeted, RetargetedClamped, Defined;
    var d := StepMovesTarget(s, k);
    StepKeepsRule(s, k);
  }

  /**
   * The rules leave nothing open: an outcome follows them if and only if it has the lists and
   * the target of the access as coded.
   */
  lemma RulesDecide(s: Arc, k: Key, r: Arc)
    requires Structure(s) && s.cap < WORD && s.p < WORD && GhostsFit(s) && Defined(s, k)
    ensures var c := Step(s, k);
            Follows(s, k, r) <==> r.p == c.p && r.t1 == c.t1 && r.t2 == c.t2 && r.b1 == c.b1 && r.b2 == c.b2
  {
    hide Structure, Step, Defined, IsStep, Without, Oldest, Front;
    StepFollows(s, k);
    var c := Step(s, k);
    if Follows(s, k, r) {
      TargetFixed(s, k, r.p, c.p);
      ListsFixed(s, k, r, c);
    }
  }

  lemma TargetFixed(s: Arc, k: Key, p: nat, q: nat)
    requires (exists d: nat :: Retargeted(s, k, p, d)) && (exists e: nat :: Retargeted(s, k, q, e))
    ensures p == q
  {
    hide IsStep;
    var d: nat :| Retargeted(s, k, p, d);
    var e: nat :| Retargeted(s, k, q, e);
    if k in s.b1 {
      StepIsUnique(d, e, |s.b1|, |s.b2|);
    } else if k in s.b2 {
      StepIsUnique(d, e, |s.b2|, |s.b1|);
    }
  }

  lemma ListsFixed(s: Arc, k: Key, r: Arc, c: Arc)
    requires ListRule(s, k, r) && ListRule(s, k, c) && r.p == c.p
    ensures r.t1 == c.t1 && r.t2 == c.t2 && r.b1 == c.b1 && r.b2 == c.b2
  {
  }

  // --- whole runs ---

  ghost predicate FollowsThroughout(cap: nat, keys: seq<Key>) {
    forall i :: 0 <= i < |keys| ==> Follows(Run(cap, keys[..i]), keys[i], Run(cap, keys[..i + 1]))
  }

  /** Every access of a run that never overfills the cache follows the rules, at any capacity. */
  lemma RunFollowsRules(cap: nat, keys: seq<Key>)
    requires 0 < cap < WORD && NeverOverfills(cap, keys)
    ensures FollowsThroughout(cap, keys)
  {
    hide Run, Step, Follows, Overfills, Structure;
    forall i | 0 <= i < |keys|
      ensures Follows(Run(cap, keys[..i]), keys[i], Run(cap, keys[..i + 1]))
    {
      var s := Run(cap, keys[..i]);
      InvUpTo(cap, keys, i);
      InvFits(s);
      InvIsDefined(s, keys[i]);
      StepFollows(s, keys[i]);
      RunSnoc(cap, keys, i);
    }
  }

  /** Up to capacity 2^30 so does every access of every run the code defines, overfilled or not. */
  lemma DefinedRunFollowsRules(cap: nat, keys: seq<Key>)
    requires 0 < cap && 2 * cap <= HALF && DefinedThroughout(cap, keys)
    ensures FollowsThroughout(cap, keys)
  {
    hide Run, Step, Follows, Structure, Defined;
    forall i | 0 <= i < |keys|
      ensures Follows(Run(cap, keys[..i]), keys[i], Run(cap, keys[..i + 1]))
    {
      var s := Run(cap, keys[..i]);
      DefinedUpTo(cap, keys, i);
      RunKeepsSound(cap, keys[..i]);
      SmallFits(s);
      StepFollows(s, keys[i]);
      RunSnoc(cap, keys, i);
    }
  }

  lemma {:induction false} DefinedUpTo(cap: nat, keys: seq<Key>, i: nat)
    requires i < |keys| && DefinedThroughout(cap, keys)
    ensures DefinedThroughout(cap, keys[..i]) && Defined(Run(cap, keys[..i]), keys[i])
    decreases |keys|
  {
    hide Run, Defined;
    var n := |keys| - 1;
    if i < n {
      DefinedUpTo(cap, keys[..n], i);
      assert keys[..n][..i] == keys[..i];
    }
  }
}
