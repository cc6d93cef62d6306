/** The adaptive replacement cache as the program keeps it: four lists, a flag per key and a target. */
module ArcCache {
  import opened Seqs
  import opened Words
  import opened ArcSpec
  import Rules = ArcRules

  class ArcCache {
    const capacity: nat
    var p: nat
    var statMiss: nat
    var statHit: nat
    var statEv: nat
    var t1: seq<Key>
    var t2: seq<Key>
    var b1: seq<Key>
    var b2: seq<Key>
    var inGhost: map<Key, bool>

    ghost function Flagged(): set<Key>
      reads `inGhost
    {
      set k | k in inGhost && inGhost[k]
    }

    ghost function Abs(): Arc
      reads this
    {
      Arc(capacity, p, t1, t2, b1, b2, Flagged(), statHit, statMiss, statEv)
    }

    constructor (capacity: nat)
      requires capacity < WORD
      ensures Abs() == ArcSpec.Init(capacity) && Structure(Abs())
      ensures capacity > 0 ==> Inv(Abs())
    {
      this.capacity := capacity;
      p, statMiss, statHit, statEv := 0, 0, 0, 0;
      t1, t2, b1, b2 := [], [], [], [];
      inGhost := map[];
      new;
      if capacity > 0 {
        InitKeepsInv(capacity);
      }
      assert Flagged() == {};
    }

    /** Reading the flag of an unknown key enters it as unset. */
    method Probe(key: Key) returns (flag: bool)
      modifies `inGhost
      ensures flag <==> key in old(Flagged())
      ensures Abs() == old(Abs())
    {
      if key !in inGhost {
        inGhost := inGhost[key := false];
      }
      flag := inGhost[key];
      assert Flagged() == old(Flagged());
    }

    method SetFlag(key: Key, flag: bool)
      modifies `inGhost
      ensures Flagged() == if flag then old(Flagged()) + {key} else old(Flagged()) - {key}
    {
      inGhost := inGhost[key := flag];
    }

    /**
     * One access that the code gives a meaning to, whatever the target has become.  Target and
     * lists change by the rules of `ArcRules` unless the ghost lists hold more than 2^31 keys.
     */
    method Access(key: Key)
      requires Structure(Abs()) && Defined(Abs(), key)
      modifies this
      ensures Abs() == Step(old(Abs()), key) && Structure(Abs())
      ensures old(capacity < WORD && p < WORD && Rules.GhostsFit(Abs())) ==> Rules.Follows(old(Abs()), key, Abs())
    {
      hide Structure, Defined, Copies, ArcSpec.Replace, Ratio, W32, Rules.Follows, Rules.GhostsFit;
      ghost var s := Abs();
      if s.cap < WORD && s.p < WORD && Rules.GhostsFit(s) {
        Rules.StepFollows(s, key);
      }
      Membership(s, key);
      StepKeepsStructure(s, key);
      var i1, i2 := IndexOf(t1, key), IndexOf(t2, key);
      if i1 < |t1| || i2 < |t2| {
        statHit := statHit + 1;
        if i1 < |t1| {
          t1 := RemoveAt(t1, i1);
        } else {
          t2 := RemoveAt(t2, i2);
        }
        t2 := [key] + t2;
      } else {
        var ghostly := Probe(key);
        statMiss := statMiss + 1;
        if ghostly {
          GhostHit(key, s);
        } else {
          DefinedMiss(s, key);
          MakeRoom(s.(misses := s.misses + 1));
          t1 := [key] + t1;
        }
      }
    }

    lemma DefinedMiss(s: Arc, key: Key)
      requires Defined(s, key) && key !in s.t1 && key !in s.t2 && key !in s.inGhost
      ensures if |s.t1| + |s.b1| == s.cap then |s.t1| < s.cap || s.t1 != []
              else s.cap <= Total(s) == W32(2 * s.cap) ==> s.b2 != []
    {
    }

    method GhostHit(key: Key, ghost s: Arc)
      requires Abs() == s.(misses := s.misses + 1)
      requires key !in s.t1 && key !in s.t2 && key in s.inGhost && (key in s.b1 || key in s.b2) && Defined(s, key)
      modifies this
      ensures Abs() == Step(s, key)
    {
      hide ArcSpec.Replace, W32;
      if IndexOf(b1, key) < |b1| {
        p := Min(W32(p + Max(1, SignedQuotient(Signed(|b2|), Signed(|b1|)))), capacity);
        assert p == Grow(s);
        Replace(false);
        b1 := Without(b1, key);
        SetFlag(key, false);
      } else {
        p := Max(W32(p - Max(1, SignedQuotient(Signed(|b1|), Signed(|b2|)))), 0);
        assert p == Shrink(s);
        Replace(true);
        b2 := Without(b2, key);
        SetFlag(key, false);
      }
      t2 := [key] + t2;
    }

    /** Evictions and drops that precede the arrival of an unknown key. */
    method MakeRoom(ghost s: Arc)
      requires Abs() == s
      requires if |s.t1| + |s.b1| == s.cap then |s.t1| < s.cap || s.t1 != []
               else s.cap <= Total(s) == W32(2 * s.cap) ==> s.b2 != []
      modifies this
      ensures Abs() == ArcSpec.MakeRoom(s)
    {
      hide ArcSpec.Replace, W32;
      if |t1| + |b1| == capacity {
        if |t1| < capacity {
          var key := b1[|b1| - 1];
          SetFlag(key, false);
          b1 := PopBack(b1);
          Replace(false);
        } else {
          t1 := RemoveAt(t1, |t1| - 1);
          statEv := statEv + 1;
        }
      } else {
        if |t1| + |t2| + |b1| + |b2| >= capacity {
          if |t1| + |t2| + |b1| + |b2| == W32(2 * capacity) {
            var key := b2[|b2| - 1];
            b2 := PopBack(b2);
            SetFlag(key, false);
          }
          Replace(false);
        }
      }
    }

    method Replace(inB2: bool)
      modifies this
      ensures Abs() == ArcSpec.Replace(old(Abs()), inB2)
    {
      if |t1| > 0 && (|t1| > p || (inB2 && |t1| == p)) {
        var key := t1[|t1| - 1];
        t1 := PopBack(t1);
        b1 := [key] + b1;
        SetFlag(key, true);
        statEv := statEv + 1;
      } else {
        if |t2| > 0 {
          var key := t2[|t2| - 1];
          t2 := PopBack(t2);
          b2 := [key] + b2;
          SetFlag(key, true);
          statEv := statEv + 1;
        }
      }
    }
  }
}
