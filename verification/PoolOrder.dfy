/** Which idle block an allocation picks, told from the log: of a size class the one that has been
    idle longest, of the large and the exact blocks the one that was created first. */
module PoolOrder {
  import opened Wrappers
  import opened PoolModel
  import opened PoolInvariant
  import opened PoolSteps
  import opened PoolAnswers
  import opened PoolRuns
  import opened PoolHistory

  // ---------------------------------------------------------------- lists

  ghost predicate InOrderOf(list: seq<Ptr>, whole: seq<Ptr>) {
    forall a, b :: Precedes(list, a, b) ==> Precedes(whole, a, b)
  }

  lemma TailPrecedes(list: seq<Ptr>, a: Ptr, b: Ptr)
    requires list != [] && Precedes(list[1..], a, b)
    ensures Precedes(list, a, b)
  {
    var i, j :| 0 <= i < j < |list[1..]| && list[1..][i] == a && list[1..][j] == b;
    assert list[i + 1] == a && list[j + 1] == b;
  }

  lemma HeadPrecedes(list: seq<Ptr>, b: Ptr)
    requires list != [] && b in list[1..]
    ensures Precedes(list, list[0], b)
  {
    var j :| 0 <= j < |list[1..]| && list[1..][j] == b;
    assert list[j + 1] == b;
  }

  /** A list that begins as another and goes on with a part of its rest, in order. */
  lemma ConsInOrder(list: seq<Ptr>, rest: seq<Ptr>)
    requires list != [] && InOrderOf(rest, list[1..]) && forall b :: b in rest ==> b in list[1..]
    ensures InOrderOf([list[0]] + rest, list)
  {
    var cons := [list[0]] + rest;
    forall a, b | Precedes(cons, a, b) ensures Precedes(list, a, b) {
      var i, j :| 0 <= i < j < |cons| && cons[i] == a && cons[j] == b;
      assert rest[j - 1] == b;
      if i == 0 {
        HeadPrecedes(list, b);
      } else {
        assert rest[i - 1] == a;
        assert Precedes(rest, a, b);
        TailPrecedes(list, a, b);
      }
    }
  }

  lemma SkipInOrder(list: seq<Ptr>, rest: seq<Ptr>)
    requires list != [] && InOrderOf(rest, list[1..])
    ensures InOrderOf(rest, list)
  {
    forall a, b | Precedes(rest, a, b) ensures Precedes(list, a, b) {
      TailPrecedes(list, a, b);
    }
  }

  lemma {:induction false} RemoveInOrder(list: seq<Ptr>, x: Ptr)
    ensures InOrderOf(Remove(list, x), list) && forall b :: b in Remove(list, x) ==> b in list
  {
    if list == [] {
    } else {
      RemoveInOrder(list[1..], x);
      if list[0] == x {
        SkipInOrder(list, Remove(list[1..], x));
      } else {
        ConsInOrder(list, Remove(list[1..], x));
      }
    }
  }

  lemma {:induction false} SweepInOrder(list: seq<Ptr>, evictable: set<Ptr>, failing: set<Ptr>, b: Backend)
    ensures var kept := Sweep(list, evictable, failing, b).kept;
      InOrderOf(kept, list) && forall x :: x in kept ==> x in list
  {
    if list == [] {
    } else if list[0] !in evictable {
      SweepInOrder(list[1..], evictable, failing, b);
      ConsInOrder(list, Sweep(list[1..], evictable, failing, b).kept);
    } else if list[0] !in failing {
      SweepInOrder(list[1..], evictable, failing, Free(b, list[0], false));
      SkipInOrder(list, Sweep(list[1..], evictable, failing, Free(b, list[0], false)).kept);
    }
  }

  lemma WithoutInOrder(list: seq<Ptr>, i: nat)
    requires i < |list|
    ensures InOrderOf(Without(list, i), list)
  {
    var rest := Without(list, i);
    forall a, b | Precedes(rest, a, b) ensures Precedes(list, a, b) {
      var j, k :| 0 <= j < k < |rest| && rest[j] == a && rest[k] == b;
      var j', k' := if j < i then j else j + 1, if k < i then k else k + 1;
      assert 0 <= j' < k' < |list| && list[j'] == a && list[k'] == b;
    }
  }

  lemma AppendInOrder(list: seq<Ptr>, x: Ptr, a: Ptr, b: Ptr)
    requires Precedes(list + [x], a, b)
    ensures Precedes(list, a, b) || (b == x && a in list)
  {
    var whole := list + [x];
    var i, j :| 0 <= i < j < |whole| && whole[i] == a && whole[j] == b;
    assert whole[i] == list[i];
    if j < |list| {
      assert list[j] == b;
    }
  }

  lemma Trans(a: seq<Ptr>, b: seq<Ptr>, c: seq<Ptr>)
    requires InOrderOf(a, b) && InOrderOf(b, c)
    ensures InOrderOf(a, c)
  {}

  // ---------------------------------------------------------------- what steps do to the lists

  ghost predicate ListsInOrder(s: Pool, s': Pool) {
    && |s'.free| == |s.free|
    && (forall c :: 0 <= c < |s.free| ==> InOrderOf(s'.free[c], s.free[c]))
    && InOrderOf(s'.large, s.large)
  }

  lemma ClassInOrder(s: Pool, t: ThreadId, c: nat, faults: AllocFaults)
    requires Listed(s) && c < |CLASS_SIZES|
    ensures var (s', r) := AllocateFromClass(s, t, c, faults);
      r.Ok? ==> ListsInOrder(s, s')
  {
    hide Freeze, Precedes, Rollback;
    forall placed: Pool, q, f | q in placed.all
      ensures Freeze(placed, q, t, f).0.free == placed.free && Freeze(placed, q, t, f).0.large == placed.large
    {
      FreezeLeavesLists(placed, q, t, f);
    }
    var i := FirstIdle(s.all, s.free[c], 0);
    if i < |s.free[c]| {
      WithoutInOrder(s.free[c], i);
    }
  }

  lemma LargeInOrder(s: Pool, t: ThreadId, size: nat, exact: bool, faults: AllocFaults)
    requires Listed(s)
    ensures var (s', r) := AllocateLarge(s, t, size, exact, faults);
      r.Ok? ==>
        || ListsInOrder(s, s')
        || (faults.malloc == Some(r.value) && s'.free == s.free && s'.large == s.large + [r.value])
  {
    hide Freeze, Precedes, Rollback;
    forall placed: Pool, q, f | q in placed.all
      ensures Freeze(placed, q, t, f).0.free == placed.free && Freeze(placed, q, t, f).0.large == placed.large
    {
      FreezeLeavesLists(placed, q, t, f);
    }
  }

  lemma AllocateInOrder(s: Pool, others: Batches, t: ThreadId, size: nat, exact: bool, faults: AllocFaults)
    requires Inv(s, others) && Listed(s) && FaultsOk(s, faults)
    ensures var (s', r) := Allocate(s, t, size, exact, faults);
      || ListsInOrder(s, s')
      || (r.Ok? && faults.malloc == Some(r.value) && s'.free == s.free && s'.large == s.large + [r.value])
  {
    hide Inv, NoneServes, InOrderOf, LeaksIfThrown, AllocateFromClass, AllocateLarge;
    ThrownLeaksExactly(s, others, t, size, exact, faults);
    ItselfInOrder(s);
    if size > 0 && AlignUp(size, ALIGNMENT).Some? {
      var aligned := AlignUp(size, ALIGNMENT).value;
      var c := FirstClass(aligned, 0);
      FirstClassIsSmallest(aligned, 0);
      if !exact && c < |CLASS_SIZES| {
        assert Allocate(s, t, size, exact, faults) == AllocateFromClass(s, t, c, faults);
        ClassInOrder(s, t, c, faults);
      } else {
        assert Allocate(s, t, size, exact, faults) == AllocateLarge(s, t, aligned, exact, faults);
        LargeInOrder(s, t, aligned, exact, faults);
      }
    }
  }

  lemma ItselfInOrder(s: Pool)
    ensures ListsInOrder(s, s)
  {}

  lemma FreezeLeavesLists(s: Pool, p: Ptr, t: ThreadId, faults: FreezeFaults)
    requires p in s.all
    ensures Freeze(s, p, t, faults).0.free == s.free && Freeze(s, p, t, faults).0.large == s.large
  {}

  lemma {:induction false} TrimClassesInOrder(s: Pool, failing: set<Ptr>, c: nat)
    requires c <= |s.free|
    ensures ListsInOrder(s, TrimClasses(s, failing, c).0)
    decreases |s.free| - c
  {
    hide Precedes, Sweep;
    if c < |s.free| {
      var pass := Sweep(s.free[c], Unpinned(s), failing, s.backend);
      SweepInOrder(s.free[c], Unpinned(s), failing, s.backend);
      var next := s.(free := s.free[c := pass.kept], all := s.all - pass.freed, backend := pass.backend);
      if pass.done {
        TrimClassesInOrder(next, failing, c + 1);
      }
    }
  }

  lemma TrimInOrder(s: Pool, failing: set<Ptr>)
    ensures ListsInOrder(s, Trim(s, failing).0)
  {
    hide Precedes, Sweep, TrimClasses;
    TrimClassesInOrder(s, failing, 0);
    var classes := TrimClasses(s, failing, 0).0;
    SweepInOrder(classes.large, Idle(classes), failing, classes.backend);
  }

  /** A block that is given back by its last owner goes to the end of its list; nothing else changes
      the order in which blocks wait. */
  lemma StepWaits(w: World, e: Event, c: nat, a: Ptr, b: Ptr)
    requires WorldInv(w) && Enabled(w, e) && Step(w, e).0.alive && c < |CLASS_SIZES|
    ensures var (w', r) := Step(w, e);
      && |w'.pool.free| == |w.pool.free| == |CLASS_SIZES|
      && (Precedes(w'.pool.free[c], a, b) ==>
            || Precedes(w.pool.free[c], a, b)
            || (Returns(Record(e, r), b) && a in w.pool.free[c]))
      && (Precedes(w'.pool.large, a, b) ==>
            || Precedes(w.pool.large, a, b)
            || (Creates(Record(e, r), b) && a in w.pool.large))
  {
    hide Inv, Freeze, Precedes, AllocateFromClass, AllocateLarge, TrimClasses, TrimLarge, Unpin, Allocate, Trim, Remove;
    var s := w.pool;
    match e.op
    case OpAllocate(size, exact, faults) =>
      AllocateInOrder(s, w.batches, e.thread, size, exact, faults);
      if faults.malloc.Some? && Precedes(s.large + [faults.malloc.value], a, b) {
        AppendInOrder(s.large, faults.malloc.value, a, b);
      }
    case OpDeallocate(p, pushFails) =>
      if Precedes(s.free[c] + [p], a, b) {
        AppendInOrder(s.free[c], p, a, b);
      }
    case OpRetain(p) => RemoveInOrder(s.free[c], p);
    case OpRetainForCapture(p, freeze) =>
      if p in s.all {
        FreezeLeavesLists(s, p, e.thread, freeze);
      }
    case OpTrim(failing) => TrimInOrder(s, failing);
    case _ =>
  }

  // ---------------------------------------------------------------- the order in the log

  predicate Returns(r: Record, p: Ptr) {
    r.event.op.OpDeallocate? && r.event.op.ptr == p && r.reply == Done
  }

  predicate Creates(r: Record, p: Ptr) {
    r.event.op.OpAllocate? && r.event.op.faults.malloc == Some(p) && r.reply == Address(p)
  }

  /** When the block was last given back. */
  function LastReturn(log: seq<Record>, p: Ptr): int {
    if log == [] then -1
    else if Returns(log[|log| - 1], p) then |log| - 1
    else LastReturn(log[..|log| - 1], p)
  }

  /** When the block was last asked of the backend. */
  function Creation(log: seq<Record>, p: Ptr): int {
    if log == [] then -1
    else if Creates(log[|log| - 1], p) then |log| - 1
    else Creation(log[..|log| - 1], p)
  }

  lemma {:induction false} BeforeNow(log: seq<Record>, p: Ptr)
    ensures LastReturn(log, p) < |log| && Creation(log, p) < |log|
  {
    if log != [] {
      BeforeNow(log[..|log| - 1], p);
    }
  }

  /** A listed block is neither given back nor created again. */
  lemma ListedStays(w: World, e: Event, c: nat, a: Ptr)
    requires WorldInv(w) && Enabled(w, e) && w.alive && c < |w.pool.free|
    ensures a in w.pool.free[c] ==> !Returns(Record(e, Step(w, e).1), a)
    ensures a in w.pool.large ==> !Creates(Record(e, Step(w, e).1), a)
  {
    hide Freeze, AllocateFromClass, AllocateLarge, TrimClasses, TrimLarge, Unpin, Allocate, Trim;
    if a in w.pool.free[c] {
      assert FreeIn(w.pool.all, a, c);
      InvBlock(w.pool, w.batches, a);
      DeallocateKeeps(w.pool, w.batches, a, e.op.OpDeallocate? && e.op.pushFails);
    }
    if a in w.pool.large {
      assert IsLarge(w.pool.all, a);
    }
  }

  /** The lists are in the order of the log, at every moment of a run. */
  lemma {:induction false} ListsFollowLog(ws: seq<World>, log: seq<Record>, n: nat, c: nat, a: Ptr, b: Ptr)
    requires Run(ws, log) && n <= |log| && ws[n].alive && c < |CLASS_SIZES|
    ensures |ws[n].pool.free| == |CLASS_SIZES|
    ensures Precedes(ws[n].pool.free[c], a, b) ==> LastReturn(log[..n], a) < LastReturn(log[..n], b)
    ensures Precedes(ws[n].pool.large, a, b) ==> Creation(log[..n], a) < Creation(log[..n], b)
  {
    hide WorldInv, Step, Enabled;
    RunIsSafe(ws, log);
    if n == 0 {
    } else {
      var m := n - 1;
      assert Moves(ws[m], log[m], ws[n]);
      assert log[m] == Record(log[m].event, log[m].reply);
      PrefixRun(ws, log, m);
      ListsFollowLog(ws, log, m, c, a, b);
      StepWaits(ws[m], log[m].event, c, a, b);
      ListedStays(ws[m], log[m].event, c, a);
      ListedStays(ws[m], log[m].event, c, b);
      BeforeNow(log[..m], a);
      assert log[..n][..m] == log[..m];
    }
  }

  /** Reuse hands out the block of the class that has been idle longest; among the large and the
      exact blocks that would do, the one that was created first. */
  lemma ReusesLongestIdle(ws: seq<World>, log: seq<Record>, n: nat, q: Ptr)
    requires Run(ws, log) && n < |log| && log[n].event.op.OpAllocate? && log[n].reply.Address?
    requires log[n].reply.ptr != NULL && log[n].reply.ptr in ws[n].pool.all
    requires AlignUp(log[n].event.op.size, ALIGNMENT).Some?
    requires q in ws[n].pool.all && q != log[n].reply.ptr
    requires WouldServe(ws[n].pool.all[q], AlignUp(log[n].event.op.size, ALIGNMENT).value, log[n].event.op.exact)
    ensures var p := log[n].reply.ptr;
      if ws[n].pool.all[p].kind == SizeClass then LastReturn(log[..n], p) < LastReturn(log[..n], q)
      else Creation(log[..n], p) < Creation(log[..n], q)
  {
    hide WorldInv, Step, Enabled, WouldServe, Precedes, NoneServes;
    var p := log[n].reply.ptr;
    RunIsSafe(ws, log);
    assert Moves(ws[n], log[n], ws[n + 1]);
    PrefixRun(ws, log, n);
    PicksFirst(ws[n], log[n].event, q);
    ListsFollowLog(ws, log, n, if ws[n].pool.all[p].kind == SizeClass then ws[n].pool.all[p].classIndex else 0, p, q);
  }

  lemma PicksFirst(w: World, e: Event, q: Ptr)
    requires WorldInv(w) && Enabled(w, e) && e.op.OpAllocate? && Step(w, e).1.Address?
    requires Step(w, e).1.ptr != NULL && Step(w, e).1.ptr in w.pool.all
    requires AlignUp(e.op.size, ALIGNMENT).Some? && q in w.pool.all && q != Step(w, e).1.ptr
    requires WouldServe(w.pool.all[q], AlignUp(e.op.size, ALIGNMENT).value, e.op.exact)
    ensures var p := Step(w, e).1.ptr;
      && (w.pool.all[p].kind == SizeClass ==> w.pool.all[p].classIndex < |CLASS_SIZES|)
      && Precedes(WaitingList(w.pool, w.pool.all[p]), p, q)
  {
    hide Inv, WouldServe, Precedes, Allocate;
    AllocateAnswers(w.pool, w.batches, e.thread, e.op.size, e.op.exact, e.op.faults);
    InvBlock(w.pool, w.batches, Step(w, e).1.ptr);
  }
}
