/** How far a trim gets that throws: `trim` visits the size classes in order, then the large and
    exact blocks, and stops at the first free the backend refuses. */
module PoolTrim {
  import opened Wrappers
  import opened PoolModel
  import opened PoolInvariant
  import opened PoolSteps
  import opened PoolAnswers

  lemma PrecedesInTail(list: seq<Ptr>, p: Ptr, q: Ptr)
    requires Distinct(list) && list != [] && q in list[1..]
    ensures Precedes(list, p, q) <==> p == list[0] || Precedes(list[1..], p, q)
  {
    if p == list[0] {
      var j :| 0 <= j < |list[1..]| && list[1..][j] == q;
      assert list[0] == p && list[j + 1] == q;
    }
    if Precedes(list[1..], p, q) {
      var i, j :| 0 <= i < j < |list[1..]| && list[1..][i] == p && list[1..][j] == q;
      assert list[i + 1] == p && list[j + 1] == q;
    }
    if Precedes(list, p, q) && p != list[0] {
      var i, j :| 0 <= i < j < |list| && list[i] == p && list[j] == q;
      assert list[1..][i - 1] == p && list[1..][j - 1] == q;
    }
  }

  lemma NothingBeforeFirst(list: seq<Ptr>, p: Ptr)
    requires Distinct(list) && list != []
    ensures !Precedes(list, p, list[0])
  {}

  /** A pass that does not reach the end has freed what can be evicted before one entry `q`, whose
      free was refused, and nothing from there on. */
  lemma {:induction false} SweepStops(list: seq<Ptr>, evictable: set<Ptr>, failing: set<Ptr>, b: Backend)
    returns (q: Ptr)
    requires Distinct(list) && !Sweep(list, evictable, failing, b).done
    ensures q in list && q in evictable && q in failing
    ensures forall p :: p in list ==>
      (p in Sweep(list, evictable, failing, b).freed <==> p in evictable && Precedes(list, p, q))
    ensures forall p :: p in Sweep(list, evictable, failing, b).freed ==> p in list
  {
    hide Precedes;
    var first := list[0];
    if first in evictable && first in failing {
      q := first;
      forall p | p in list ensures !Precedes(list, p, q) {
        NothingBeforeFirst(list, p);
      }
    } else {
      var b' := if first in evictable then Free(b, first, false) else b;
      q := SweepStops(list[1..], evictable, failing, b');
      forall p | p in list ensures Precedes(list, p, q) <==> p == first || Precedes(list[1..], p, q) {
        PrecedesInTail(list, p, q);
      }
      assert forall p :: p in list <==> p == first || p in list[1..];
      assert first !in list[1..];
    }
  }

  lemma ClassesApart(s: Pool, others: Batches, c: nat, d: nat, p: Ptr)
    requires Inv(s, others) && c < |s.free| && d < |s.free| && p in s.free[c] && p in s.free[d]
    ensures c == d
  {
    assert FreeIn(s.all, p, c) && FreeIn(s.all, p, d);
  }

  lemma ListIsDistinct(s: Pool, others: Batches, c: nat)
    requires Inv(s, others) && c < |s.free|
    ensures Distinct(s.free[c]) && forall p :: p in s.free[c] ==> p in s.all && p in s.backend.live
  {
    forall p | p in s.free[c] ensures p in s.all && p in s.backend.live {
      assert FreeIn(s.all, p, c);
    }
  }

  lemma {:induction false} TrimClassesStops(s: Pool, others: Batches, failing: set<Ptr>, c: nat)
    returns (d: nat, q: Ptr)
    requires Inv(s, others) && c <= |s.free| && !TrimClasses(s, failing, c).1
    ensures c <= d < |s.free| && q in s.free[d] && q in s.all && s.all[q].pinCount == 0 && q in failing
    ensures forall x, p :: c <= x < |s.free| && p in s.free[x] && p in s.all && s.all[p].pinCount == 0 ==>
      (p !in TrimClasses(s, failing, c).0.all <==> x < d || (x == d && Precedes(s.free[d], p, q)))
    decreases |s.free| - c
  {
    hide Inv, Sweep, Precedes;
    ListIsDistinct(s, others, c);
    var pass := Sweep(s.free[c], Unpinned(s), failing, s.backend);
    var next := s.(free := s.free[c := pass.kept], all := s.all - pass.freed, backend := pass.backend);
    SweepFrees(s.free[c], Unpinned(s), failing, s.backend);
    SweepClassKeeps(s, others, failing, c);
    forall x, p | 0 <= x < |s.free| && x != c && p in s.free[x] ensures p !in pass.freed {
      if p in pass.freed {
        ClassesApart(s, others, c, x, p);
      }
    }
    if pass.done {
      d, q := TrimClassesStops(next, others, failing, c + 1);
      TrimClassesKeeps(next, others, failing, c + 1);
      assert q in s.free[d];
      forall x, p | c <= x < |s.free| && p in s.free[x] && p in s.all && s.all[p].pinCount == 0
        ensures p !in TrimClasses(next, failing, c + 1).0.all <==> x < d || (x == d && Precedes(s.free[d], p, q))
      {
        if x == c {
          assert p in Unpinned(s) && p in pass.freed;
        } else {
          assert p in next.free[x] && p in next.all && next.all[p] == s.all[p];
        }
      }
    } else {
      d := c;
      q := SweepStops(s.free[c], Unpinned(s), failing, s.backend);
      forall x, p | c <= x < |s.free| && p in s.free[x] && p in s.all && s.all[p].pinCount == 0
        ensures p !in next.all <==> x == c && Precedes(s.free[c], p, q)
      {
        assert p in Unpinned(s);
      }
    }
  }

  /** When `trim` comes to a block: the classes in order, then the rest. */
  function Turn(b: Block): nat {
    if b.kind == SizeClass then b.classIndex else |CLASS_SIZES|
  }

  ghost predicate VisitedBefore(s: Pool, p: Ptr, q: Ptr)
    requires p in s.all && q in s.all
  {
    || Turn(s.all[p]) < Turn(s.all[q])
    || (Turn(s.all[p]) == Turn(s.all[q]) && Precedes(WaitingList(s, s.all[q]), p, q))
  }

  lemma {:induction false} TrimClassesLeavesLarge(s: Pool, others: Batches, failing: set<Ptr>, c: nat)
    requires Inv(s, others) && c <= |s.free|
    ensures var s' := TrimClasses(s, failing, c).0;
      s'.large == s.large && forall p :: p in s.all && p !in s'.all ==> s.all[p].kind == SizeClass
    decreases |s.free| - c
  {
    hide Inv, Sweep;
    if c < |s.free| {
      var pass := Sweep(s.free[c], Unpinned(s), failing, s.backend);
      var next := s.(free := s.free[c := pass.kept], all := s.all - pass.freed, backend := pass.backend);
      ListIsDistinct(s, others, c);
      SweepFrees(s.free[c], Unpinned(s), failing, s.backend);
      SweepClassKeeps(s, others, failing, c);
      forall p | p in pass.freed ensures p in s.all && s.all[p].kind == SizeClass {
        ClassMember(s, others, c, p);
      }
      if pass.done {
        TrimClassesLeavesLarge(next, others, failing, c + 1);
        TrimClassesKeeps(next, others, failing, c + 1);
      }
    }
  }

  /** Once the classes are done, no idle unpinned block of any class is left. */
  lemma ClassesDone(s: Pool, others: Batches, failing: set<Ptr>, p: Ptr)
    requires Inv(s, others) && TrimClasses(s, failing, 0).1
    requires p in Idle(s) && s.all[p].kind == SizeClass
    ensures p !in TrimClasses(s, failing, 0).0.all
  {
    hide Inv, TrimClasses;
    TrimClassesKeeps(s, others, failing, 0);
    var classes := TrimClasses(s, failing, 0).0;
    if p in classes.all {
      IdlePlace(classes, others, p);
    }
  }

  lemma LargeStops(s: Pool, others: Batches, failing: set<Ptr>) returns (q: Ptr)
    requires Inv(s, others) && TrimClasses(s, failing, 0).1 && Trim(s, failing).1.Throw?
    ensures q in s.all && q in Idle(s) && q in failing && s.all[q].kind != SizeClass
    ensures forall p :: p in s.all && s.all[p].kind != SizeClass ==>
      (p !in Trim(s, failing).0.all <==> p in Idle(s) && Precedes(s.large, p, q))
    ensures forall p :: p in s.all && s.all[p].kind == SizeClass ==> (p !in Trim(s, failing).0.all <==> p in Idle(s))
  {
    hide Inv, Sweep, TrimClasses, Precedes;
    var classes := TrimClasses(s, failing, 0).0;
    TrimClassesKeeps(s, others, failing, 0);
    TrimClassesLeavesLarge(s, others, failing, 0);
    LargeIsDistinct(classes, others);
    q := SweepStops(classes.large, Idle(classes), failing, classes.backend);
    forall p | p in s.all && s.all[p].kind != SizeClass ensures p in classes.large {
      IdlePlace(classes, others, p);
    }
    forall p | p in Idle(s) && s.all[p].kind == SizeClass ensures p !in classes.all {
      ClassesDone(s, others, failing, p);
    }
    forall p | p in s.all && p !in classes.all ensures p in Idle(s) {
      IdlePlace(s, others, p);
    }
  }

  lemma LargeIsDistinct(s: Pool, others: Batches)
    requires Inv(s, others)
    ensures Distinct(s.large) && forall p :: p in s.large ==> p in s.all && s.all[p].kind != SizeClass
  {
    forall p | p in s.large ensures p in s.all && s.all[p].kind != SizeClass {
      assert IsLarge(s.all, p);
    }
  }

  /** A trim that throws has freed every idle unpinned block that it visits before one block `q`,
      whose free was refused, and no other block. */
  lemma TrimStopsAtFirst(s: Pool, others: Batches, failing: set<Ptr>) returns (q: Ptr)
    requires Inv(s, others) && Trim(s, failing).1.Throw?
    ensures q in s.all && q in Idle(s) && q in failing
    ensures forall p :: p in s.all ==>
      (p !in Trim(s, failing).0.all <==> p in Idle(s) && VisitedBefore(s, p, q))
  {
    hide Inv, Sweep, TrimClasses, Precedes;
    var s' := Trim(s, failing).0;
    if TrimClasses(s, failing, 0).1 {
      q := LargeStops(s, others, failing);
      forall p | p in s.all ensures p !in s'.all <==> p in Idle(s) && VisitedBefore(s, p, q) {
        IdlePlace(s, others, p);
      }
    } else {
      TrimClassesLeavesLarge(s, others, failing, 0);
      TrimClassesKeeps(s, others, failing, 0);
      var d;
      d, q := TrimClassesStops(s, others, failing, 0);
      ClassMember(s, others, d, q);
      forall p | p in s.all ensures p !in s'.all <==> p in Idle(s) && VisitedBefore(s, p, q) {
        IdlePlace(s, others, p);
      }
    }
  }

  lemma ClassMember(s: Pool, others: Batches, d: nat, q: Ptr)
    requires Inv(s, others) && d < |s.free| && q in s.free[d]
    ensures q in s.all && s.all[q].kind == SizeClass && s.all[q].classIndex == d && !s.all[q].inUse
    ensures WaitingList(s, s.all[q]) == s.free[d] && d < |CLASS_SIZES|
  {
    assert FreeIn(s.all, q, d);
  }

  lemma IdlePlace(s: Pool, others: Batches, p: Ptr)
    requires Inv(s, others) && p in s.all
    ensures s.all[p].inUse <==> s.all[p].useCount > 0
    ensures |s.free| == |CLASS_SIZES|
    ensures s.all[p].kind == SizeClass ==> s.all[p].classIndex < |CLASS_SIZES|
    ensures s.all[p].kind == SizeClass && !s.all[p].inUse ==> p in s.free[s.all[p].classIndex]
    ensures s.all[p].kind != SizeClass ==> p in s.large
  {
    assert BlockOk(p, s.all[p], s.generation);
    if s.all[p].kind == SizeClass && !s.all[p].inUse {
      assert FreeIn(s.all, p, s.all[p].classIndex);
    }
    if s.all[p].kind != SizeClass {
      assert IsLarge(s.all, p);
    }
  }
}
