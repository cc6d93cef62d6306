/** Whole runs of the adaptive replacement cache, as written and as the clamp intends. */
module ArcRuns {
  import opened Seqs
  import opened Words
  import opened ArcSpec

  function Run(cap: nat, keys: seq<Key>): Arc {
    if keys == [] then Init(cap) else Step(Run(cap, keys[..|keys| - 1]), keys[|keys| - 1])
  }

  function ClampedRun(cap: nat, keys: seq<Key>): Arc {
    if keys == [] then Init(cap) else ClampedStep(ClampedRun(cap, keys[..|keys| - 1]), keys[|keys| - 1])
  }

  lemma {:induction false} ClampedRunKeepsInv(cap: nat, keys: seq<Key>)
    requires 0 < cap < WORD
    ensures var s := ClampedRun(cap, keys);
            Inv(s) && s.p <= s.cap == cap
  {
    hide Inv, ClampedStep;
    if keys == [] {
      InitKeepsInv(cap);
    } else {
      ClampedRunKeepsInv(cap, keys[..|keys| - 1]);
      ClampedKeepsInv(ClampedRun(cap, keys[..|keys| - 1]), keys[|keys| - 1]);
    }
  }

  /** Every access of the run has a meaning in the code. */
  ghost predicate DefinedThroughout(cap: nat, keys: seq<Key>) {
    keys == [] || (var n := |keys| - 1; DefinedThroughout(cap, keys[..n]) && Defined(Run(cap, keys[..n]), keys[n]))
  }

  lemma {:induction false} RunKeepsSound(cap: nat, keys: seq<Key>)
    requires 0 < cap < WORD && DefinedThroughout(cap, keys)
    ensures Sound(Run(cap, keys)) && Run(cap, keys).cap == cap
  {
    hide Sound, Step, Defined;
    if keys == [] {
      InitKeepsInv(cap);
      InvIsSound(Init(cap));
    } else {
      RunKeepsSound(cap, keys[..|keys| - 1]);
      StepKeepsSound(Run(cap, keys[..|keys| - 1]), keys[|keys| - 1]);
    }
  }

  lemma InvIsSound(s: Arc)
    requires Inv(s)
    ensures Sound(s)
  {
  }

  ghost predicate AlwaysInv(cap: nat, keys: seq<Key>) {
    forall i :: 0 <= i <= |keys| ==> Inv(Run(cap, keys[..i]))
  }

  /** The cache never holds more keys than its capacity. */
  ghost predicate AlwaysFits(cap: nat, keys: seq<Key>) {
    forall i :: 0 <= i <= |keys| ==> Resident(Run(cap, keys[..i])) <= cap
  }

  ghost predicate NeverOverfills(cap: nat, keys: seq<Key>) {
    forall i :: 0 <= i < |keys| ==> !Overfills(Run(cap, keys[..i]), keys[i])
  }

  lemma RunSnoc(cap: nat, keys: seq<Key>, i: nat)
    requires i < |keys|
    ensures Run(cap, keys[..i + 1]) == Step(Run(cap, keys[..i]), keys[i])
  {
    assert keys[..i + 1][..i] == keys[..i];
  }

  /** As long as no access has overfilled the cache, the invariant holds and the next one may. */
  lemma {:induction false} InvUpTo(cap: nat, keys: seq<Key>, i: nat)
    requires 0 < cap < WORD && i <= |keys|
    requires forall j :: 0 <= j < i ==> !Overfills(Run(cap, keys[..j]), keys[j])
    ensures Inv(Run(cap, keys[..i])) && Run(cap, keys[..i]).cap == cap
    ensures Resident(Run(cap, keys[..i])) <= cap
    ensures i < |keys| && Overfills(Run(cap, keys[..i]), keys[i]) ==>
              Resident(Run(cap, keys[..i + 1])) > cap && !Inv(Run(cap, keys[..i + 1]))
  {
    hide Step, Overfills, Sound;
    if i == 0 {
      InitKeepsInv(cap);
      assert keys[..0] == [];
    } else {
      InvUpTo(cap, keys, i - 1);
      RunSnoc(cap, keys, i - 1);
      StepKeepsInvIff(Run(cap, keys[..i - 1]), keys[i - 1]);
      StepKeepsCap(Run(cap, keys[..i - 1]), keys[i - 1]);
    }
    if i < |keys| {
      RunSnoc(cap, keys, i);
      StepKeepsInvIff(Run(cap, keys[..i]), keys[i]);
    }
  }

  lemma StepKeepsCap(s: Arc, k: Key)
    ensures Step(s, k).cap == s.cap
  {
  }

  lemma {:induction false} FirstOverfill(cap: nat, keys: seq<Key>, i: nat) returns (j: nat)
    requires i < |keys| && Overfills(Run(cap, keys[..i]), keys[i])
    ensures j < |keys| && Overfills(Run(cap, keys[..j]), keys[j])
    ensures forall l :: 0 <= l < j ==> !Overfills(Run(cap, keys[..l]), keys[l])
    decreases i
  {
    hide Overfills, Run;
    j := i;
    if l :| 0 <= l < i && Overfills(Run(cap, keys[..l]), keys[l]) {
      j := FirstOverfill(cap, keys, l);
    }
  }

  /**
   * Over whole runs: the cache stays within its capacity throughout, and keeps the whole
   * invariant throughout, if and only if none of its accesses overfills it.
   */
  lemma RunKeepsInvIff(cap: nat, keys: seq<Key>)
    requires 0 < cap < WORD
    ensures AlwaysFits(cap, keys) <==> NeverOverfills(cap, keys)
    ensures AlwaysInv(cap, keys) <==> NeverOverfills(cap, keys)
  {
    hide Inv, Run, Step, Overfills;
    if NeverOverfills(cap, keys) {
      forall i | 0 <= i <= |keys|
        ensures Inv(Run(cap, keys[..i])) && Resident(Run(cap, keys[..i])) <= cap
      {
        InvUpTo(cap, keys, i);
      }
    } else {
      var i :| 0 <= i < |keys| && Overfills(Run(cap, keys[..i]), keys[i]);
      var j := FirstOverfill(cap, keys, i);
      InvUpTo(cap, keys, j);
      assert !Inv(Run(cap, keys[..j + 1])) && !(Resident(Run(cap, keys[..j + 1])) <= cap);
    }
  }

  /** A run that never overfills the cache is defined throughout. */
  lemma {:induction false} NeverOverfillsIsDefined(cap: nat, keys: seq<Key>)
    requires 0 < cap < WORD && NeverOverfills(cap, keys)
    ensures DefinedThroughout(cap, keys)
  {
    hide Run, Overfills, Inv, Defined;
    if keys != [] {
      var n := |keys| - 1;
      forall i | 0 <= i < n
        ensures !Overfills(Run(cap, keys[..n][..i]), keys[..n][i])
      {
        assert keys[..n][..i] == keys[..i];
      }
      NeverOverfillsIsDefined(cap, keys[..n]);
      InvUpTo(cap, keys, n);
      InvIsDefined(Run(cap, keys[..n]), keys[n]);
    }
  }

  /** Hits and misses add up to the accesses made. */
  lemma {:induction false} Accounting(cap: nat, keys: seq<Key>)
    requires DefinedThroughout(cap, keys)
    ensures Run(cap, keys).hits + Run(cap, keys).misses == |keys|
  {
    hide Defined;
    if keys != [] {
      Accounting(cap, keys[..|keys| - 1]);
      OneMore(Run(cap, keys[..|keys| - 1]), keys[|keys| - 1]);
    }
  }

  lemma OneMore(s: Arc, k: Key)
    ensures Step(s, k).hits == s.hits + if k in s.t1 || k in s.t2 then 1 else 0
    ensures Step(s, k).hits + Step(s, k).misses == s.hits + s.misses + 1
  {
  }

  // --- three runs of the code as written ---

  lemma RunEmpty(cap: nat)
    ensures Run(cap, []) == Init(cap)
  {
  }

  lemma RunNext(cap: nat, keys: seq<Key>, k: Key)
    ensures Run(cap, keys + [k]) == Step(Run(cap, keys), k)
  {
    assert (keys + [k])[..|keys|] == keys;
  }

  /** Four accesses leave two resident keys in a cache of capacity one. */
  lemma OverfullRun()
    ensures Run(1, [1, 1, 2, 1]) == Arc(1, WORD - 1, [2], [1], [], [], {}, 1, 3, 1)
    ensures Resident(Run(1, [1, 1, 2, 1])) > 1
  {
    OverfullSteps();
  }

  lemma OverfullSteps()
    ensures Run(1, []) == Init(1)
    ensures Run(1, [1]) == Arc(1, 0, [1], [], [], [], {}, 0, 1, 0)
    ensures Run(1, [1, 1]) == Arc(1, 0, [], [1], [], [], {}, 1, 1, 0)
    ensures Run(1, [1, 1, 2]) == Arc(1, 0, [2], [], [], [1], {1}, 1, 2, 1)
    ensures Run(1, [1, 1, 2, 1]) == Arc(1, WORD - 1, [2], [1], [], [], {}, 1, 3, 1)
  {
    hide Step, Run;
    RunEmpty(1);
    RunNext(1, [], 1);
    RunNext(1, [1], 1);
    RunNext(1, [1, 1], 2);
    RunNext(1, [1, 1, 2], 1);
    assert [] + [1] == [1] && [1] + [1] == [1, 1] && [1, 1] + [2] == [1, 1, 2] && [1, 1, 2] + [1] == [1, 1, 2, 1];
    FirstTwoSteps(1);
    ThirdStep();
    FourthStep();
  }

  lemma FirstTwoSteps(cap: nat)
    requires 0 < cap <= 2
    ensures Step(Init(cap), 1) == Arc(cap, 0, [1], [], [], [], {}, 0, 1, 0)
    ensures Step(Arc(cap, 0, [1], [], [], [], {}, 0, 1, 0), 1) == Arc(cap, 0, [], [1], [], [], {}, 1, 1, 0)
  {
    assert [1] + [] == [1];
    assert RemoveAt([1], 0) == [];
  }

  lemma ThirdStep()
    ensures Step(Arc(1, 0, [], [1], [], [], {}, 1, 1, 0), 2) == Arc(1, 0, [2], [], [], [1], {1}, 1, 2, 1)
  {
    assert RemoveAt([1], 0) == [];
    assert [1] + [] == [1] && [2] + [] == [2];
    assert {} + {1} == {1};
  }

  lemma FourthStep()
    ensures Step(Arc(1, 0, [2], [], [], [1], {1}, 1, 2, 1), 1) == Arc(1, WORD - 1, [2], [1], [], [], {}, 1, 3, 1)
  {
    StepOfOne(Arc(1, 0, [2], [], [], [1], {1}, 1, 2, 1));
    NoReplacement();
    hide Replace, Shrink;
    assert RemoveAt([1], 0) == [];
    assert [1] + [] == [1];
    assert {1} - {1} == {};
  }

  lemma NoReplacement()
    ensures var s := Arc(1, WORD - 1, [2], [], [], [1], {1}, 1, 3, 1);
            Replace(s, true) == s
  {
  }

  /** Two more accesses, and the code takes the oldest key of an empty `b2`. */
  lemma EmptyBackRun()
    ensures DefinedThroughout(1, [1, 1, 2, 1, 2]) && !Defined(Run(1, [1, 1, 2, 1, 2]), 3)
  {
    hide Step, Run;
    OverfullSteps();
    RunNext(1, [1, 1, 2, 1], 2);
    assert [1, 1, 2, 1] + [2] == [1, 1, 2, 1, 2];
    FifthStep();
    DefinedSoFar();
  }

  lemma FifthStep()
    ensures Step(Arc(1, WORD - 1, [2], [1], [], [], {}, 1, 3, 1), 2)
         == Arc(1, WORD - 1, [], [2, 1], [], [], {}, 2, 3, 1)
  {
    assert RemoveAt([2], 0) == [];
    assert [2] + [1] == [2, 1];
  }

  lemma DefinedSoFar()
    ensures DefinedThroughout(1, [1, 1, 2, 1, 2])
  {
    hide Step, Run;
    OverfullSteps();
    assert [1, 1, 2, 1, 2][..4] == [1, 1, 2, 1] && [1, 1, 2, 1][..3] == [1, 1, 2];
    assert [1, 1, 2][..2] == [1, 1] && [1, 1][..1] == [1] && [1][..0] == [];
    assert DefinedThroughout(1, []);
    assert DefinedThroughout(1, [1]);
    assert DefinedThroughout(1, [1, 1]);
    assert DefinedThroughout(1, [1, 1, 2]);
    assert DefinedThroughout(1, [1, 1, 2, 1]);
  }

  /**
   * A wrapped target does no harm by itself: here the subtraction wraps, and the cache stays
   * within its capacity of two.
   */
  lemma HarmlessWrapRun()
    ensures Run(2, [1, 1, 2, 2, 3, 1]) == Arc(2, WORD - 1, [3], [1], [], [2], {2}, 2, 4, 2)
  {
    hide Step, Run;
    RunEmpty(2);
    RunNext(2, [], 1);
    RunNext(2, [1], 1);
    RunNext(2, [1, 1], 2);
    RunNext(2, [1, 1, 2], 2);
    RunNext(2, [1, 1, 2, 2], 3);
    RunNext(2, [1, 1, 2, 2, 3], 1);
    assert [] + [1] == [1] && [1] + [1] == [1, 1] && [1, 1] + [2] == [1, 1, 2] && [1, 1, 2] + [2] == [1, 1, 2, 2];
    assert [1, 1, 2, 2] + [3] == [1, 1, 2, 2, 3] && [1, 1, 2, 2, 3] + [1] == [1, 1, 2, 2, 3, 1];
    FirstTwoSteps(2);
    HarmlessSteps();
    WrappingStep();
  }

  lemma HarmlessSteps()
    ensures Step(Arc(2, 0, [], [1], [], [], {}, 1, 1, 0), 2) == Arc(2, 0, [2], [1], [], [], {}, 1, 2, 0)
    ensures Step(Arc(2, 0, [2], [1], [], [], {}, 1, 2, 0), 2) == Arc(2, 0, [], [2, 1], [], [], {}, 2, 2, 0)
    ensures Step(Arc(2, 0, [], [2, 1], [], [], {}, 2, 2, 0), 3) == Arc(2, 0, [3], [2], [], [1], {1}, 2, 3, 1)
  {
    assert [2] + [] == [2] && [2] + [1] == [2, 1] && [3] + [] == [3] && [1] + [] == [1];
    assert RemoveAt([2], 0) == [] && RemoveAt([2, 1], 1) == [2];
    assert {} + {1} == {1};
  }

  lemma WrappingStep()
    ensures Step(Arc(2, 0, [3], [2], [], [1], {1}, 2, 3, 1), 1) == Arc(2, WORD - 1, [3], [1], [], [2], {2}, 2, 4, 2)
  {
    var s := Arc(2, 0, [3], [2], [], [1], {1}, 2, 3, 1);
    StepOfOne(s);
    WrappedReplacement();
    hide Replace, Shrink;
    assert RemoveAt([2, 1], 1) == [2] && [1] + [] == [1];
    assert {1, 2} - {1} == {2};
  }

  lemma WrappedReplacement()
    ensures Replace(Arc(2, WORD - 1, [3], [2], [], [1], {1}, 2, 4, 1), true)
         == Arc(2, WORD - 1, [3], [], [], [2, 1], {1, 2}, 2, 4, 2)
  {
    assert RemoveAt([2], 0) == [] && [2] + [1] == [2, 1];
    assert {1} + {2} == {1, 2};
  }
}
