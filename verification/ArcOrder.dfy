/**
 * The adaptive replacement cache seen as two LRU lists: the keys seen once, resident ones
 * before remembered ones, and the keys seen more often.  Replacement only moves the border
 * between resident and remembered keys.
 */
module ArcOrder {
  import opened Seqs
  import opened ArcSpec
  import opened ArcRuns
  import opened Words

  function Once(s: Arc): seq<Key> {
    s.t1 + s.b1
  }

  function Often(s: Arc): seq<Key> {
    s.t2 + s.b2
  }

  lemma ReplaceKeepsLists(s: Arc, inB2: bool)
    ensures var r := Replace(s, inB2);
            && Once(r) == Once(s) && Often(r) == Often(s) && r.cap == s.cap
            && (forall x :: x in s.b1 ==> x in r.b1) && (forall x :: x in s.b2 ==> x in r.b2)
  {
  }

  lemma FirstAt(s: seq<Key>, k: Key, i: nat)
    requires i < |s| && s[i] == k && forall j :: 0 <= j < i ==> s[j] != k
    ensures IndexOf(s, k) == i
  {
    hide IndexOf;
    var j := IndexOf(s, k);
    assert j < |s| && !(j < i) && !(i < j);
  }

  lemma EraseFirst(a: seq<Key>, b: seq<Key>, k: Key)
    requires k in a
    ensures Without(a + b, k) == Without(a, k) + b
  {
    hide IndexOf;
    FirstAt(a + b, k, IndexOf(a, k));
  }

  lemma EraseSecond(a: seq<Key>, b: seq<Key>, k: Key)
    requires k !in a
    ensures Without(a + b, k) == a + Without(b, k)
  {
    hide IndexOf, RemoveAt;
    if k in b {
      FirstAt(a + b, k, |a| + IndexOf(b, k));
      RemoveSecond(a, b, IndexOf(b, k));
    }
  }

  lemma RemoveSecond(a: seq<Key>, b: seq<Key>, i: nat)
    requires i < |b|
    ensures RemoveAt(a + b, |a| + i) == a + RemoveAt(b, i)
  {
    assert (a + b)[..|a| + i] == a + b[..i];
    assert (a + b)[|a| + i + 1..] == b[i + 1..];
  }

  lemma PopSecond(a: seq<Key>, b: seq<Key>)
    requires b != []
    ensures PopBack(a + b) == a + PopBack(b)
  {
  }

  /** A key is in one list only. */
  lemma Exclusive(s: Arc, k: Key)
    requires Structure(s)
    ensures k in s.t1 ==> k !in s.t2 && k !in s.b1 && k !in s.b2
    ensures k in s.t2 ==> k !in s.b1 && k !in s.b2
    ensures k in s.b1 ==> k !in s.b2
  {
    assert Copies(s.t1, s.t2, s.b1, s.b2, k) <= 1;
  }

  /** A hit, resident or remembered, makes the key the newest of those seen often. */
  lemma SeenAgain(s: Arc, k: Key)
    requires Structure(s)
    ensures k in s.t1 || k in s.t2 ==>
              Once(Hit(s, k)) == Without(Once(s), k) && Often(Hit(s, k)) == [k] + Without(Often(s), k)
  {
    hide Without, Structure;
    Exclusive(s, k);
    if k in s.t1 {
      EraseFirst(s.t1, s.b1, k);
      EraseAbsent(Often(s), k);
    } else if k in s.t2 {
      EraseFirst(s.t2, s.b2, k);
      EraseAbsent(Once(s), k);
    }
  }

  lemma EraseAbsent(l: seq<Key>, k: Key)
    requires k !in l
    ensures Without(l, k) == l
  {
  }

  lemma GhostSeenAgain1(s: Arc, k: Key)
    requires Structure(s) && k in s.b1
    ensures Once(GhostHit1(s, k)) == Without(Once(s), k) && Often(GhostHit1(s, k)) == [k] + Without(Often(s), k)
  {
    hide Without, Structure, Replace, Grow;
    var m := s.(p := Grow(s), misses := s.misses + 1);
    var r := Replace(m, false);
    ReplaceKeepsLists(m, false);
    Exclusive(s, k);
    NotInFirst(s, m, false, k);
    EraseSecond(r.t1, r.b1, k);
    EraseAbsent(Often(s), k);
    assert Often(GhostHit1(s, k)) == [k] + Often(s);
  }

  lemma GhostSeenAgain2(s: Arc, k: Key, p: nat)
    requires Structure(s) && k in s.b2
    ensures Once(GhostHit2(s, k, p)) == Without(Once(s), k) && Often(GhostHit2(s, k, p)) == [k] + Without(Often(s), k)
  {
    hide Without, Structure, Replace;
    var m := s.(p := p, misses := s.misses + 1);
    var r := Replace(m, true);
    ReplaceKeepsLists(m, true);
    Exclusive(s, k);
    NotInFirst(s, m, true, k);
    EraseSecond(r.t2, r.b2, k);
    EraseAbsent(Once(s), k);
    assert Often(GhostHit2(s, k, p)) == [k] + (r.t2 + Without(r.b2, k));
  }

  lemma NotInFirst(s: Arc, m: Arc, inB2: bool, k: Key)
    requires m.t1 == s.t1 && m.t2 == s.t2 && k !in s.t1 && k !in s.t2
    ensures k !in Replace(m, inB2).t1 && k !in Replace(m, inB2).t2
  {
  }

  /** A key in no list becomes the newest of those seen once; each list may lose its oldest key. */
  lemma SeenFirst(s: Arc, k: Key)
    requires Sound(s) && CopiesIn(s, k) == 0 && (|Once(s)| < s.cap && Total(s) == 2 * s.cap ==> s.b2 != [])
    ensures var full := |Once(s)| == s.cap;
            && Once(Miss(s, k)) == [k] + (if full then PopBack(Once(s)) else Once(s))
            && Often(Miss(s, k)) == if !full && Total(s) == 2 * s.cap then PopBack(Often(s)) else Often(s)
  {
    hide Structure, CopiesIn, Replace, PopBack, W32;
    DoublingIsHarmless(s, k);
    var m := s.(misses := s.misses + 1);
    ReplaceKeepsLists(DropB1(m), false);
    ReplaceKeepsLists(DropB2(m), false);
    ReplaceKeepsLists(m, false);
    if s.b1 != [] {
      PopSecond(s.t1, s.b1);
    }
    if s.b2 != [] {
      PopSecond(s.t2, s.b2);
    }
    assert s.b1 == [] ==> Once(s) == s.t1;
    assert [k] + (s.t1 + s.b1) == ([k] + s.t1) + s.b1;
  }

  /**
   * The two lists after one access.  Neither the target nor the border between resident and
   * remembered keys has a say, so the code as written and the clamped cache agree on them.
   */
  lemma StepLists(s: Arc, k: Key, r: Arc)
    requires Sound(s) && Defined(s, k) && (r == Step(s, k) || r == ClampedStep(s, k))
    ensures if k in Once(s) || k in Often(s) then
              Once(r) == Without(Once(s), k) && Often(r) == [k] + Without(Often(s), k)
            else
              var full := |Once(s)| == s.cap;
              && Once(r) == [k] + (if full then PopBack(Once(s)) else Once(s))
              && Often(r) == if !full && Total(s) == 2 * s.cap then PopBack(Often(s)) else Often(s)
  {
    hide Structure, Without, PopBack, Hit, GhostHit1, GhostHit2, Miss, Delta, CopiesIn, W32;
    Membership(s, k);
    if k in s.t1 || k in s.t2 {
      SeenAgain(s, k);
    } else if k in s.b1 {
      GhostSeenAgain1(s, k);
    } else if k in s.b2 {
      GhostSeenAgain2(s, k, Shrink(s));
      GhostSeenAgain2(s, k, Clamped(s));
    } else {
      DoublingIsHarmless(s, k);
      SeenFirst(s, k);
    }
  }

  // --- what the lists say about the trace ---

  /** The position of the last access to `k`, counted from one; zero if there was none. */
  function LastUse(keys: seq<Key>, k: Key): nat {
    if keys == [] then 0
    else if keys[|keys| - 1] == k then |keys|
    else LastUse(keys[..|keys| - 1], k)
  }

  function Uses(keys: seq<Key>, k: Key): nat {
    multiset(keys)[k]
  }

  /** The list runs from the latest used key to the one unused for longest. */
  ghost predicate ByRecency(l: seq<Key>, keys: seq<Key>) {
    forall i, j :: 0 <= i < j < |l| ==> LastUse(keys, l[i]) > LastUse(keys, l[j])
  }

  ghost predicate UsedAtLeast(l: seq<Key>, keys: seq<Key>, n: nat) {
    forall i :: 0 <= i < |l| ==> Uses(keys, l[i]) >= n
  }

  lemma {:induction false} LastUseBound(keys: seq<Key>, k: Key)
    ensures LastUse(keys, k) <= |keys|
  {
    if keys != [] {
      LastUseBound(keys[..|keys| - 1], k);
    }
  }

  lemma UsedOnceMore(keys: seq<Key>, k: Key, x: Key)
    requires keys != [] && keys[|keys| - 1] == k
    ensures LastUse(keys, x) == if x == k then |keys| else LastUse(keys[..|keys| - 1], x)
    ensures Uses(keys, x) == Uses(keys[..|keys| - 1], x) + if x == k then 1 else 0
  {
    assert keys == keys[..|keys| - 1] + [k];
  }

  /** Without `k`, which was just used, the order of a list is what it was. */
  lemma StillOrdered(l: seq<Key>, keys: seq<Key>, n: nat)
    requires keys != [] && keys[|keys| - 1] !in l
    requires ByRecency(l, keys[..|keys| - 1]) && UsedAtLeast(l, keys[..|keys| - 1], n)
    ensures ByRecency(l, keys) && UsedAtLeast(l, keys, n)
    ensures forall i :: 0 <= i < |l| ==> LastUse(keys, l[i]) < |keys|
  {
    var k := keys[|keys| - 1];
    hide LastUse, Uses;
    forall i | 0 <= i < |l|
      ensures LastUse(keys, l[i]) == LastUse(keys[..|keys| - 1], l[i]) < |keys|
      ensures Uses(keys, l[i]) == Uses(keys[..|keys| - 1], l[i])
    {
      UsedOnceMore(keys, k, l[i]);
      LastUseBound(keys[..|keys| - 1], l[i]);
    }
  }

  lemma InFront(l: seq<Key>, keys: seq<Key>, n: nat)
    requires keys != [] && ByRecency(l, keys) && UsedAtLeast(l, keys, n)
    requires forall i :: 0 <= i < |l| ==> LastUse(keys, l[i]) < |keys|
    requires Uses(keys, keys[|keys| - 1]) >= n
    ensures ByRecency([keys[|keys| - 1]] + l, keys) && UsedAtLeast([keys[|keys| - 1]] + l, keys, n)
  {
  }

  lemma Thinned(l: seq<Key>, i: nat, keys: seq<Key>, n: nat)
    requires i < |l| && ByRecency(l, keys) && UsedAtLeast(l, keys, n)
    ensures ByRecency(RemoveAt(l, i), keys) && UsedAtLeast(RemoveAt(l, i), keys, n)
    ensures forall x :: x in RemoveAt(l, i) ==> x in l
    ensures l[i] !in RemoveAt(l, i)
  {
    hide LastUse, Uses;
    var r := RemoveAt(l, i);
    forall j | 0 <= j < |r|
      ensures r[j] == l[if j < i then j else j + 1] && r[j] != l[i]
    {
    }
  }

  lemma ErasedOrdered(l: seq<Key>, k: Key, keys: seq<Key>, n: nat)
    requires ByRecency(l, keys) && UsedAtLeast(l, keys, n)
    ensures ByRecency(Without(l, k), keys) && UsedAtLeast(Without(l, k), keys, n) && k !in Without(l, k)
    ensures k in l ==> Uses(keys, k) >= n
  {
    hide LastUse, Uses, RemoveAt;
    if k in l {
      Thinned(l, IndexOf(l, k), keys, n);
    }
  }

  lemma PoppedOrdered(l: seq<Key>, keys: seq<Key>, n: nat)
    requires ByRecency(l, keys) && UsedAtLeast(l, keys, n)
    ensures ByRecency(PopBack(l), keys) && UsedAtLeast(PopBack(l), keys, n)
    ensures forall x :: x in PopBack(l) ==> x in l
  {
    hide LastUse, Uses, RemoveAt;
    if l != [] {
      Thinned(l, |l| - 1, keys, n);
    }
  }

  /** Both lists are in LRU order, and the second holds only keys used at least twice. */
  ghost predicate Follows(s: Arc, keys: seq<Key>) {
    && ByRecency(Once(s), keys) && UsedAtLeast(Once(s), keys, 1)
    && ByRecency(Often(s), keys) && UsedAtLeast(Often(s), keys, 2)
  }

  lemma StepFollows(s: Arc, keys: seq<Key>)
    requires Inv(s) && keys != [] && Follows(s, keys[..|keys| - 1])
    ensures Follows(ClampedStep(s, keys[|keys| - 1]), keys)
  {
    hide ByRecency, UsedAtLeast, Without, PopBack, LastUse, Uses, Inv, Sound, Defined, ClampedStep, Once, Often;
    var before, k := keys[..|keys| - 1], keys[|keys| - 1];
    InvIsSound(s);
    InvIsDefined(s, k);
    StepLists(s, k, ClampedStep(s, k));
    UsedOnceMore(keys, k, k);
    if k in Once(s) || k in Often(s) {
      ErasedOrdered(Once(s), k, before, 1);
      ErasedOrdered(Often(s), k, before, 2);
      StillOrdered(Without(Once(s), k), keys, 1);
      StillOrdered(Without(Often(s), k), keys, 2);
      InFront(Without(Often(s), k), keys, 2);
    } else {
      PoppedOrdered(Once(s), before, 1);
      PoppedOrdered(Often(s), before, 2);
      var a := if |Once(s)| == s.cap then PopBack(Once(s)) else Once(s);
      StillOrdered(a, keys, 1);
      InFront(a, keys, 1);
      StillOrdered(Often(ClampedStep(s, k)), keys, 2);
    }
  }

  /**
   * After any trace: the keys seen once, resident ones first, run from the latest used to the
   * one unused for longest; so do the keys seen often, each of which was used at least twice.
   */
  lemma {:induction false} ClampedRunFollows(cap: nat, keys: seq<Key>)
    requires 0 < cap < WORD
    ensures Follows(ClampedRun(cap, keys), keys)
  {
    hide Follows, Inv, ClampedStep;
    if keys == [] {
      NothingYet(cap);
    } else {
      ClampedRunFollows(cap, keys[..|keys| - 1]);
      ClampedRunKeepsInv(cap, keys[..|keys| - 1]);
      StepFollows(ClampedRun(cap, keys[..|keys| - 1]), keys);
    }
  }

  lemma NothingYet(cap: nat)
    ensures Follows(Init(cap), [])
  {
  }

  /**
   * As long as the code is defined, its wrapping subtraction moves only the border between
   * resident and remembered keys: both lists are at every point those of the clamped cache.
   */
  lemma {:induction false} ListsAgree(cap: nat, keys: seq<Key>)
    requires 0 < cap < WORD && DefinedThroughout(cap, keys)
    ensures Once(Run(cap, keys)) == Once(ClampedRun(cap, keys))
    ensures Often(Run(cap, keys)) == Often(ClampedRun(cap, keys))
  {
    hide Sound, Inv, Defined, Step, ClampedStep, Without, PopBack, Once, Often;
    if keys != [] {
      var before, k := keys[..|keys| - 1], keys[|keys| - 1];
      ListsAgree(cap, before);
      RunKeepsSound(cap, before);
      ClampedRunKeepsInv(cap, before);
      var s, c := Run(cap, before), ClampedRun(cap, before);
      InvIsSound(c);
      InvIsDefined(c, k);
      StepLists(s, k, Step(s, k));
      StepLists(c, k, ClampedStep(c, k));
      TotalOf(s);
      TotalOf(c);
    }
  }

  lemma TotalOf(s: Arc)
    ensures Total(s) == |Once(s)| + |Often(s)|
  {
  }

  /** The same of the code as written, for every run it gives a meaning to. */
  lemma RunFollows(cap: nat, keys: seq<Key>)
    requires 0 < cap < WORD && DefinedThroughout(cap, keys)
    ensures Follows(Run(cap, keys), keys)
  {
    hide Once, Often, ByRecency, UsedAtLeast, Run, ClampedRun, DefinedThroughout;
    ListsAgree(cap, keys);
    ClampedRunFollows(cap, keys);
  }
}
