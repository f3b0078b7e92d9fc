/** When an allocation returns, with which block, and when it throws, in terms of the request, the
    pool and the answers from outside. */
module PoolAnswers {
  import opened Wrappers
  import opened PoolModel
  import opened PoolInvariant
  import opened PoolSteps

  ghost predicate Precedes(list: seq<Ptr>, p: Ptr, q: Ptr) {
    exists i, j :: 0 <= i < j < |list| && list[i] == p && list[j] == q
  }

  /** The list in which an idle block waits. */
  function WaitingList(s: Pool, b: Block): seq<Ptr> {
    if b.kind != SizeClass then s.large else if b.classIndex < |s.free| then s.free[b.classIndex] else []
  }

  /** The block that is handed out: before all others that would do. */
  ghost predicate FirstToServe(s: Pool, aligned: nat, exact: bool, p: Ptr) {
    && p in s.all && WouldServe(s.all[p], aligned, exact)
    && p in WaitingList(s, s.all[p])
    && forall q :: q in s.all && q != p && WouldServe(s.all[q], aligned, exact) ==>
         Precedes(WaitingList(s, s.all[p]), p, q)
  }

  lemma PrecedesOneWay(list: seq<Ptr>, p: Ptr, q: Ptr)
    requires Distinct(list) && Precedes(list, p, q)
    ensures p != q && !Precedes(list, q, p)
  {}

  lemma SameList(s: Pool, aligned: nat, exact: bool, b: Block, b': Block)
    requires WouldServe(b, aligned, exact) && WouldServe(b', aligned, exact)
    ensures WaitingList(s, b) == WaitingList(s, b')
  {
    SearchesServe(b, aligned, exact);
    SearchesServe(b', aligned, exact);
  }

  lemma FirstIsUnique(s: Pool, others: Batches, aligned: nat, exact: bool, p: Ptr, q: Ptr)
    requires Inv(s, others) && FirstToServe(s, aligned, exact, p) && FirstToServe(s, aligned, exact, q)
    ensures p == q
  {
    hide WouldServe, Counted;
    if p != q {
      SameList(s, aligned, exact, s.all[p], s.all[q]);
      PrecedesOneWay(WaitingList(s, s.all[p]), p, q);
    }
  }

  /** Where the search of the code stops. */
  function Found(s: Pool, aligned: nat, exact: bool): Option<Ptr>
    requires Listed(s)
  {
    var c := FirstClass(aligned, 0);
    if !exact && c < |CLASS_SIZES|
    then
      var i := FirstIdle(s.all, s.free[c], 0);
      if i < |s.free[c]| then Some(s.free[c][i]) else None
    else
      var i := FirstFit(s.all, s.large, aligned, exact, 0);
      if i < |s.large| then Some(s.large[i]) else None
  }

  lemma FoundIsFirst(s: Pool, others: Batches, aligned: nat, exact: bool)
    requires Inv(s, others) && Listed(s)
    ensures Found(s, aligned, exact).None? <==> NoneServes(s, aligned, exact)
    ensures Found(s, aligned, exact).Some? ==> FirstToServe(s, aligned, exact, Found(s, aligned, exact).value)
  {
    hide Inv, WouldServe;
    NoneServesIsMiss(s, others, aligned, exact);
    var found := Found(s, aligned, exact);
    if found.Some? {
      var p := found.value;
      FoundServes(s, others, aligned, exact);
      forall q | q in s.all && q != p && WouldServe(s.all[q], aligned, exact)
        ensures Precedes(WaitingList(s, s.all[p]), p, q)
      {
        FoundPrecedes(s, others, aligned, exact, q);
      }
    }
  }

  lemma FoundServes(s: Pool, others: Batches, aligned: nat, exact: bool)
    requires Inv(s, others) && Listed(s) && Found(s, aligned, exact).Some?
    ensures var p := Found(s, aligned, exact).value;
      p in s.all && WouldServe(s.all[p], aligned, exact) && p in WaitingList(s, s.all[p])
  {
    hide Counted, FrozenOk, BackendOk, BlockOk, WouldServe;
    var p := Found(s, aligned, exact).value;
    var c := FirstClass(aligned, 0);
    FirstClassIsSmallest(aligned, 0);
    if !exact && c < |CLASS_SIZES| {
      FirstIdleFinds(s.all, s.free[c], 0);
      assert p in s.free[c] && FreeIn(s.all, p, c);
    } else {
      FirstFitFinds(s.all, s.large, aligned, exact, 0);
      assert p in s.large && IsLarge(s.all, p);
    }
    SearchesServe(s.all[p], aligned, exact);
  }

  lemma FoundPrecedes(s: Pool, others: Batches, aligned: nat, exact: bool, q: Ptr)
    requires Inv(s, others) && Listed(s) && Found(s, aligned, exact).Some?
    requires q in s.all && q != Found(s, aligned, exact).value && WouldServe(s.all[q], aligned, exact)
    ensures var p := Found(s, aligned, exact).value;
      p in s.all && Precedes(WaitingList(s, s.all[p]), p, q)
  {
    hide Counted, FrozenOk, BackendOk, BlockOk, WouldServe;
    var p := Found(s, aligned, exact).value;
    FoundServes(s, others, aligned, exact);
    SameList(s, aligned, exact, s.all[p], s.all[q]);
    SearchesServe(s.all[q], aligned, exact);
    FirstClassIsSmallest(aligned, 0);
    var c := FirstClass(aligned, 0);
    if !exact && c < |CLASS_SIZES| {
      FirstIdleFinds(s.all, s.free[c], 0);
      assert FreeIn(s.all, q, c);
      var j :| 0 <= j < |s.free[c]| && s.free[c][j] == q;
      assert FirstIdle(s.all, s.free[c], 0) < j;
    } else {
      FirstFitFinds(s.all, s.large, aligned, exact, 0);
      assert IsLarge(s.all, q);
      var j :| 0 <= j < |s.large| && s.large[j] == q;
      assert FirstFit(s.all, s.large, aligned, exact, 0) < j;
    }
  }

  // ---------------------------------------------------------------- what an allocation answers

  /** Something that a new block needs after the backend has given it: room in the map, in the
      large list unless it is of a size class, and in the containers of an own capture. */
  predicate NewBlockRefused(s: Pool, t: ThreadId, aligned: nat, exact: bool, faults: AllocFaults) {
    || faults.emplaceFails
    || (!InClasses(aligned, exact) && faults.largePushFails)
    || (s.pinned && s.owner == Some(t) && (faults.freeze.pushFails || faults.freeze.insertFails))
  }

  lemma ReuseAnswers(s: Pool, others: Batches, t: ThreadId, size: nat, exact: bool, faults: AllocFaults)
    requires Inv(s, others) && Listed(s) && size > 0 && AlignUp(size, ALIGNMENT).Some?
    requires Found(s, AlignUp(size, ALIGNMENT).value, exact).Some?
    ensures var p := Found(s, AlignUp(size, ALIGNMENT).value, exact).value;
      Allocate(s, t, size, exact, faults).1
      == if FreezeRefused(s, t, p, faults.freeze) then Throw(BadAlloc) else Ok(p)
  {
    hide Inv, Freeze, WouldServe;
    var aligned := AlignUp(size, ALIGNMENT).value;
    FoundServes(s, others, aligned, exact);
    FreezeKeeps(s, others, Found(s, aligned, exact).value, t, faults.freeze);
  }

  lemma GrowAnswers(s: Pool, others: Batches, t: ThreadId, size: nat, exact: bool, faults: AllocFaults)
    requires Inv(s, others) && Listed(s) && FaultsOk(s, faults) && size > 0 && AlignUp(size, ALIGNMENT).Some?
    requires Found(s, AlignUp(size, ALIGNMENT).value, exact).None?
    requires !faults.blockFails && faults.malloc.Some?
    ensures Allocate(s, t, size, exact, faults).1
      == if NewBlockRefused(s, t, AlignUp(size, ALIGNMENT).value, exact, faults) then Throw(BadAlloc)
         else Ok(faults.malloc.value)
  {
    hide Inv, Freeze, WouldServe, Rollback;
    var aligned := AlignUp(size, ALIGNMENT).value;
    NewIsNotFrozen(s, others, faults.malloc.value);
    SearchesServe(FreshBlock(0, 0, Exact, 0), aligned, exact);
    FirstClassIsSmallest(aligned, 0);
    forall placed: Pool
      | && faults.malloc.value in placed.all && placed.pinned == s.pinned && placed.owner == s.owner
        && placed.frozen == s.frozen && placed.frozenSet == s.frozenSet
      ensures Freeze(placed, faults.malloc.value, t, faults.freeze).1
              == !(s.pinned && s.owner == Some(t) && (faults.freeze.pushFails || faults.freeze.insertFails))
    {
      FreezeEffect(placed, faults.malloc.value, t, faults.freeze);
    }
  }

  lemma NewIsNotFrozen(s: Pool, others: Batches, p: Ptr)
    requires Inv(s, others) && p !in s.backend.live
    ensures p !in s.frozen && p !in s.frozenSet
  {}

  /** The answer to every request.  If an idle block would serve, it is the first of them in its
      list, unless the capturing thread cannot freeze it; otherwise it is the block the backend
      gives, unless the backend or one of the containers refuses. */
  lemma AllocateAnswers(s: Pool, others: Batches, t: ThreadId, size: nat, exact: bool, faults: AllocFaults)
    requires Inv(s, others) && Listed(s) && FaultsOk(s, faults)
    ensures size == 0 ==> Allocate(s, t, size, exact, faults).1 == if exact then Throw(InvalidArgument) else Ok(NULL)
    ensures size > 0 && AlignUp(size, ALIGNMENT).None? ==> Allocate(s, t, size, exact, faults).1 == Throw(LengthError)
    ensures AlignUp(size, ALIGNMENT).None? <==> size + (ALIGNMENT - 1) > SIZE_MAX
    ensures size > 0 && AlignUp(size, ALIGNMENT).Some? ==>
      var r := Allocate(s, t, size, exact, faults).1;
      var aligned := AlignUp(size, ALIGNMENT).value;
      if NoneServes(s, aligned, exact)
      then r == if faults.blockFails then Throw(BadAlloc)
                else if faults.malloc.None? then Throw(BackendError)
                else if NewBlockRefused(s, t, aligned, exact, faults) then Throw(BadAlloc)
                else Ok(faults.malloc.value)
      else exists p: Ptr :: FirstToServe(s, aligned, exact, p)
             && r == if FreezeRefused(s, t, p, faults.freeze) then Throw(BadAlloc) else Ok(p)
  {
    hide Inv, AllocateFromClass, AllocateLarge, NoneServes, FirstToServe, Found;
    AlignUpIsLeast(size, ALIGNMENT);
    if size > 0 && AlignUp(size, ALIGNMENT).Some? {
      var aligned := AlignUp(size, ALIGNMENT).value;
      FoundIsFirst(s, others, aligned, exact);
      if Found(s, aligned, exact).Some? {
        ReuseAnswers(s, others, t, size, exact, faults);
      } else {
        GrowsOnMiss(s, others, t, size, exact, faults);
        if !faults.blockFails && faults.malloc.Some? {
          GrowAnswers(s, others, t, size, exact, faults);
        }
      }
    }
  }

  /** In short: when a request returns. */
  lemma AllocateReturnsExactly(s: Pool, others: Batches, t: ThreadId, size: nat, exact: bool, faults: AllocFaults)
    requires Inv(s, others) && Listed(s) && FaultsOk(s, faults) && 0 < size <= SIZE_MAX - (ALIGNMENT - 1)
    ensures AlignUp(size, ALIGNMENT).Some?
    ensures var aligned := AlignUp(size, ALIGNMENT).value;
      Allocate(s, t, size, exact, faults).1.Ok? <==>
        || (exists p: Ptr :: FirstToServe(s, aligned, exact, p) && !FreezeRefused(s, t, p, faults.freeze))
        || (NoneServes(s, aligned, exact) && !faults.blockFails && faults.malloc.Some?
            && !NewBlockRefused(s, t, aligned, exact, faults))
  {
    hide Inv, Allocate, WouldServe, FreezeRefused, NewBlockRefused;
    AllocateAnswers(s, others, t, size, exact, faults);
    var aligned := AlignUp(size, ALIGNMENT).value;
    forall p, q | FirstToServe(s, aligned, exact, p) && FirstToServe(s, aligned, exact, q) ensures p == q {
      FirstIsUnique(s, others, aligned, exact, p, q);
    }
  }

  /** A thread that does not own the open capture pins nothing. */
  lemma OthersPinNothing(s: Pool, others: Batches, t: ThreadId, size: nat, exact: bool, faults: AllocFaults)
    requires Inv(s, others) && Listed(s) && FaultsOk(s, faults) && !(s.pinned && s.owner == Some(t))
    ensures var s' := Allocate(s, t, size, exact, faults).0;
      && s'.frozen == s.frozen && s'.frozenSet == s.frozenSet
      && forall p :: p in s'.all ==> s'.all[p].pinCount == if p in s.all then s.all[p].pinCount else 0
  {
    hide Inv, Allocate, Serves, NoneServes;
    AllocateKeeps(s, others, t, size, exact, faults);
  }

  /** The sizes in numbers: an ordinary request gets the smallest class from 32 KiB to 256 MiB that
      fits, larger ones and exact ones are rounded up to 256 bytes. */
  lemma SizesByExample()
    ensures AlignUp(1, ALIGNMENT) == Some(256) && AlignUp(257, ALIGNMENT) == Some(512)
    ensures SmallestClass(0, 1) && CLASS_SIZES[0] == 32768
    ensures SmallestClass(1, 32769) && CLASS_SIZES[1] == 262144
    ensures SmallestClass(2, 262145) && CLASS_SIZES[2] == 1048576
    ensures |CLASS_SIZES| == 11 && forall c :: 3 <= c < 11 ==> CLASS_SIZES[c] == 2 * CLASS_SIZES[c - 1]
    ensures InClasses(268435456, false) && !InClasses(268435457, false)
  {}
}
