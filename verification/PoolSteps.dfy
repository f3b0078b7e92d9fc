/** Every critical section of the pool keeps the invariant, and what each one does and
    leaves alone. */
module PoolSteps {
  import opened Arithmetic
  import opened Wrappers
  import opened PoolModel
  import opened PoolInvariant

  /** The backend hands out a non-null pointer that is not already out. */
  ghost predicate FaultsOk(s: Pool, faults: AllocFaults) {
    faults.malloc.Some? ==> faults.malloc.value != NULL && faults.malloc.value !in s.backend.live
  }

  /** What the invariant says about one block. */
  lemma InvBlock(s: Pool, others: Batches, p: Ptr)
    requires Inv(s, others) && p in s.all
    ensures BlockOk(p, s.all[p], s.generation) && p in s.backend.live
  {}

  // ---------------------------------------------------------------- small updates

  /** The part of a block on which its place depends. */
  predicate SamePlace(b: Block, b': Block) {
    b'.(pinCount := b.pinCount, useCount := b.useCount, generation := b.generation) == b
  }

  lemma TouchKeeps(s: Pool, others: Batches, p: Ptr, b: Block)
    requires Inv(s, others) && p in s.all
    requires SamePlace(s.all[p], b) && b.pinCount == s.all[p].pinCount
    requires BlockOk(p, b, s.generation)
    ensures Inv(s.(all := s.all[p := b]), others)
  {
    var s' := s.(all := s.all[p := b]);
    forall c, q | 0 <= c < |s'.free| ensures q in s'.free[c] <==> FreeIn(s'.all, q, c) {
      assert FreeIn(s.all, q, c) <==> FreeIn(s'.all, q, c);
    }
    forall q ensures q in s'.large <==> IsLarge(s'.all, q) {
      assert IsLarge(s.all, q) <==> IsLarge(s'.all, q);
    }
    assert Counted(s'.all, AllBatches(s', others));
  }

  /** The thread that captures has not frozen this block yet: only then is there anything to do,
      and only then can it fail. */
  predicate Freezes(s: Pool, t: ThreadId, p: Ptr) {
    s.pinned && s.owner == Some(t) && p !in s.frozen
  }

  predicate FreezeRefused(s: Pool, t: ThreadId, p: Ptr, faults: FreezeFaults) {
    Freezes(s, t, p) && (faults.pushFails || faults.insertFails)
  }

  /** What freezing may change of a pool: for the capturing thread, once per transaction, the
      frozen list and one pin; for anybody else nothing. */
  ghost predicate FrozenOnce(s: Pool, s': Pool, t: ThreadId, p: Ptr) {
    && s'.frozen == s.frozen + (if Freezes(s, t, p) then [p] else [])
    && s'.frozenSet == s.frozenSet + (if Freezes(s, t, p) then {p} else {})
    && p in s'.all
    && s'.all[p].pinCount == (if p in s.all then s.all[p].pinCount else 0) + (if Freezes(s, t, p) then 1 else 0)
  }

  lemma FreezeEffect(s: Pool, p: Ptr, t: ThreadId, faults: FreezeFaults)
    requires p in s.all && (p in s.frozen <==> p in s.frozenSet)
    ensures var (s', ok) := Freeze(s, p, t, faults);
      && (ok <==> !FreezeRefused(s, t, p, faults))
      && (!ok ==> s' == s)
      && (ok ==> FrozenOnce(s, s', t, p) && SameButPins(s.all, s'.all)
                 && forall q :: q in s.all && q != p ==> s'.all[q] == s.all[q])
      && s' == s.(all := s'.all, frozen := s'.frozen, frozenSet := s'.frozenSet)
  {
    assert (s.frozen + [p])[..|s.frozen|] == s.frozen;
  }

  /** One more pin, and one more holder of it. */
  lemma PinAdds(all: map<Ptr, Block>, bs: Batches, p: Ptr)
    requires Counted(all, bs) && p in all && Current in bs && p !in bs[Current]
    ensures Counted(all[p := all[p].(pinCount := all[p].pinCount + 1)], bs[Current := bs[Current] + [p]])
  {
    var all' := all[p := all[p].(pinCount := all[p].pinCount + 1)];
    var after := bs[Current := bs[Current] + [p]];
    DistinctAppend(bs[Current], p);
    forall q | q in all' ensures all'[q].pinCount == |Holders(after, q)| {
      HoldersAppend(bs, Current, p, q);
    }
  }

  lemma FreezeCounts(s: Pool, others: Batches, p: Ptr, t: ThreadId)
    requires Inv(s, others) && p in s.all && Freezes(s, t, p)
    ensures Inv(s.(frozen := s.frozen + [p], frozenSet := s.frozenSet + {p},
                   all := s.all[p := s.all[p].(pinCount := s.all[p].pinCount + 1)]), others)
  {
    hide Counted, FreeListsOk, LargeListOk, BackendOk, BlockOk;
    var pinned := s.(all := s.all[p := s.all[p].(pinCount := s.all[p].pinCount + 1)]);
    PinAdds(s.all, AllBatches(s, others), p);
    PlaceIgnoresPins(s, pinned);
    DistinctAppend(s.frozen, p);
    var s' := pinned.(frozen := s.frozen + [p], frozenSet := s.frozenSet + {p});
    SameLists(pinned, s');
    assert AllBatches(s', others) == AllBatches(s, others)[Current := s.frozen + [p]];
  }

  /** Where blocks are listed does not depend on the transaction. */
  lemma SameLists(s: Pool, s': Pool)
    requires s' == s.(frozen := s'.frozen, frozenSet := s'.frozenSet)
    ensures FreeListsOk(s) ==> FreeListsOk(s')
    ensures LargeListOk(s) ==> LargeListOk(s')
    ensures BackendOk(s) ==> BackendOk(s')
  {}

  /** A thread that captures gives a block one pin and one holder together, once per transaction;
      any other thread changes nothing.  It fails exactly when a container that must grow does
      not, and then the pool is as it was. */
  lemma FreezeKeeps(s: Pool, others: Batches, p: Ptr, t: ThreadId, faults: FreezeFaults)
    requires Inv(s, others) && p in s.all
    ensures var (s', ok) := Freeze(s, p, t, faults);
      && Inv(s', others)
      && (ok <==> !FreezeRefused(s, t, p, faults))
      && (!ok ==> s' == s)
      && (ok ==> FrozenOnce(s, s', t, p) && SameButPins(s.all, s'.all)
                 && forall q :: q in s.all && q != p ==> s'.all[q] == s.all[q])
      && s' == s.(all := s'.all, frozen := s'.frozen, frozenSet := s'.frozenSet)
      && (ok && OwnsCapture(s, t) ==> p in s'.frozen)
  {
    hide Placed, Counted, FrozenOnce;
    FrozenSetMatches(s, others, p);
    FreezeEffect(s, p, t, faults);
    if Freezes(s, t, p) {
      FreezeCounts(s, others, p, t);
    }
  }

  lemma FrozenSetMatches(s: Pool, others: Batches, p: Ptr)
    requires Inv(s, others)
    ensures p in s.frozen <==> p in s.frozenSet
  {}

  /** Reuse of an idle block at position `i` of a class list. */
  lemma ReuseFromClassKeeps(s: Pool, others: Batches, c: nat, i: nat, generation: nat)
    requires Inv(s, others) && c < |s.free| && i < |s.free[c]| && generation <= s.generation
    ensures var p := s.free[c][i];
      p in s.all && Inv(s.(all := s.all[p := HandOut(s.all[p], generation)],
                           free := s.free[c := Without(s.free[c], i)]), others)
  {
    var p := s.free[c][i];
    assert FreeIn(s.all, p, c);
    WithoutMembers(s.free[c], i);
    var s' := s.(all := s.all[p := HandOut(s.all[p], generation)], free := s.free[c := Without(s.free[c], i)]);
    forall d, q | 0 <= d < |s'.free| ensures q in s'.free[d] <==> FreeIn(s'.all, q, d) {
      assert q in s.free[d] <==> FreeIn(s.all, q, d);
    }
    forall q ensures q in s'.large <==> IsLarge(s'.all, q) {
      assert IsLarge(s.all, q) <==> IsLarge(s'.all, q);
    }
    assert Counted(s'.all, AllBatches(s', others));
  }

  lemma ReuseLargeKeeps(s: Pool, others: Batches, p: Ptr, generation: nat)
    requires Inv(s, others) && IsLarge(s.all, p) && generation <= s.generation
    ensures Inv(s.(all := s.all[p := HandOut(s.all[p], generation)]), others)
  {
    var s' := s.(all := s.all[p := HandOut(s.all[p], generation)]);
    forall c, q | 0 <= c < |s'.free| ensures q in s'.free[c] <==> FreeIn(s'.all, q, c) {
      assert FreeIn(s.all, q, c) <==> FreeIn(s'.all, q, c);
    }
    forall q ensures q in s'.large <==> IsLarge(s'.all, q) {
      assert IsLarge(s.all, q) <==> IsLarge(s'.all, q);
    }
    assert Counted(s'.all, AllBatches(s', others));
  }

  lemma FreshHasNoHolder(s: Pool, others: Batches, p: Ptr)
    requires Inv(s, others) && p !in s.all
    ensures Holders(AllBatches(s, others), p) == {}
  {
    var bs := AllBatches(s, others);
    assert forall h :: h in bs && p in bs[h] ==> p in s.all;
  }

  /** A fresh block, listed as large or exact or handed out of its class. */
  lemma InsertKeeps(s: Pool, others: Batches, p: Ptr, b: Block)
    requires Inv(s, others) && p != NULL && p !in s.backend.live
    requires BlockOk(p, b, s.generation) && b.inUse && b.pinCount == 0
    ensures Inv(s.(backend := Malloc(s.backend, p), all := s.all[p := b],
                   large := if b.kind == SizeClass then s.large else s.large + [p]), others)
  {
    var s' := s.(backend := Malloc(s.backend, p), all := s.all[p := b],
                 large := if b.kind == SizeClass then s.large else s.large + [p]);
    assert p !in s.all;
    assert p !in s.large by { assert !IsLarge(s.all, p); }
    FreshHasNoHolder(s, others, p);
    forall c, q | 0 <= c < |s'.free| ensures q in s'.free[c] <==> FreeIn(s'.all, q, c) {
      assert q in s.free[c] <==> FreeIn(s.all, q, c);
    }
    forall q ensures q in s'.large <==> IsLarge(s'.all, q) {
      assert q in s.large <==> IsLarge(s.all, q);
    }
    assert AllBatches(s', others) == AllBatches(s, others);
  }

  /** Undoing a half-made block restores the pool exactly; a refused free leaves the pointer
      with the backend and nowhere else. */
  lemma RollbackRestores(s: Pool, others: Batches, p: Ptr, s': Pool, freeFails: bool)
    requires Inv(s, others) && p != NULL && p !in s.backend.live
    requires s'.backend == Malloc(s.backend, p)
    requires s'.large == s.large || s'.large == s.large + [p]
    requires s'.all == s.all || (p in s'.all && s'.all == s.all[p := s'.all[p]])
    requires s' == s.(backend := s'.backend, large := s'.large, all := s'.all)
    ensures Rollback(s', p, freeFails) == s.(backend := if freeFails then Malloc(s.backend, p) else s.backend)
    ensures Inv(Rollback(s', p, freeFails), others)
  {
    assert p !in s.all;
    assert p !in s.large by { assert !IsLarge(s.all, p); }
    RemoveAbsent(s.large, p);
    RemoveLast(s.large, p);
    assert s'.all - {p} == s.all;
    assert s.backend.live + {p} - {p} == s.backend.live;
    var r := Rollback(s', p, freeFails);
    assert AllBatches(r, others) == AllBatches(s, others);
  }

  // ---------------------------------------------------------------- allocate

  /** What one allocation does to the pool: `granted` when it returns a block. */
  ghost predicate Granted(s: Pool, s': Pool, t: ThreadId, p: Ptr) {
    && p in s'.all
    && s'.all[p].inUse && s'.all[p].useCount == 1
    && s'.all[p].generation == Generation(s, t)
    && (OwnsCapture(s, t) ==> p in s'.frozen)
    && FrozenOnce(s, s', t, p)
    && s'.all.Keys == s.all.Keys + {p}
    && (forall q :: q in s.all && q != p ==> s'.all[q] == s.all[q])
    && (if p in s.all
        then && !s.all[p].inUse && s.all[p].useCount == 0 && s'.backend == s.backend
             && s'.all[p].size == s.all[p].size && s'.all[p].kind == s.all[p].kind
             && s'.all[p].classIndex == s.all[p].classIndex
        else p !in s.backend.live && s'.backend == Malloc(s.backend, p))
    && s'.pinned == s.pinned && s'.owner == s.owner && s'.generation == s.generation
  }

  /** What an allocation that throws may have done: nothing, except that a refused free in a
      rollback leaves the new pointer with the backend. */
  ghost predicate Untouched(s: Pool, s': Pool, faults: AllocFaults) {
    s' == s || (faults.freeFails && faults.malloc.Some? && s' == s.(backend := Malloc(s.backend, faults.malloc.value)))
  }

  lemma GrowClassKeeps(s: Pool, others: Batches, t: ThreadId, c: nat, p: Ptr, faults: AllocFaults)
    requires Inv(s, others) && c < |CLASS_SIZES| && p != NULL && p !in s.backend.live
    ensures var (s', r) := GrowClass(s, t, c, p, faults);
      && Inv(s', others)
      && (r.Ok? ==> && r.value == p && Granted(s, s', t, p)
                    && s'.all[p].kind == SizeClass && s'.all[p].classIndex == c)
      && (r.Throw? ==> RolledBack(s, s', p, faults.freeFails))
  {
    var owned := s.(backend := Malloc(s.backend, p));
    if faults.emplaceFails {
      RollbackRestores(s, others, p, owned, faults.freeFails);
    } else {
      var b := FreshBlock(p, CLASS_SIZES[c], SizeClass, c);
      InsertKeeps(s, others, p, b);
      FreezeAndStamp(s, owned.(all := s.all[p := b]), others, p, t, faults);
    }
  }

  lemma GrowLargeKeeps(s: Pool, others: Batches, t: ThreadId, size: nat, exact: bool, p: Ptr, faults: AllocFaults)
    requires Inv(s, others) && size > 0 && p != NULL && p !in s.backend.live
    ensures var (s', r) := GrowLarge(s, t, size, exact, p, faults);
      && Inv(s', others)
      && (r.Ok? ==> && r.value == p && Granted(s, s', t, p)
                    && s'.all[p].kind == (if exact then Exact else Large) && s'.all[p].size == size)
      && (r.Throw? ==> RolledBack(s, s', p, faults.freeFails))
  {
    var owned := s.(backend := Malloc(s.backend, p));
    var b := FreshBlock(p, size, if exact then Exact else Large, 0);
    var mapped := owned.(all := s.all[p := b]);
    if faults.emplaceFails {
      RollbackRestores(s, others, p, owned, faults.freeFails);
    } else if faults.largePushFails {
      RollbackRestores(s, others, p, mapped, faults.freeFails);
    } else {
      InsertKeeps(s, others, p, b);
      FreezeAndStamp(s, mapped.(large := s.large + [p]), others, p, t, faults);
    }
  }

  ghost predicate RolledBack(s: Pool, s': Pool, p: Ptr, freeFails: bool) {
    s' == s.(backend := if freeFails then Malloc(s.backend, p) else s.backend)
  }

  /** What the two growing paths have built when they come to freeze the new block. */
  ghost predicate Built(s: Pool, placed: Pool, p: Ptr) {
    && p in placed.all && placed.all == s.all[p := placed.all[p]]
    && placed.all[p].inUse && placed.all[p].useCount == 1 && placed.all[p].pinCount == 0
    && (placed.large == s.large || placed.large == s.large + [p])
    && placed == s.(backend := Malloc(s.backend, p), large := placed.large, all := placed.all)
  }

  lemma FreezeShape(s: Pool, p: Ptr, t: ThreadId, faults: FreezeFaults)
    requires p in s.all
    ensures var (s', ok) := Freeze(s, p, t, faults);
      if ok
      then && p in s'.all && s'.all == s.all[p := s.all[p].(pinCount := s'.all[p].pinCount)]
           && s' == s.(frozen := s'.frozen, frozenSet := s'.frozenSet, all := s'.all)
           && (OwnsCapture(s, t) ==> p in s'.frozenSet)
      else s' == s
  {
    assert (s.frozen + [p])[..|s.frozen|] == s.frozen;
    assert s.all[p := s.all[p]] == s.all;
  }

  lemma StampGrants(s: Pool, placed: Pool, frozen: Pool, p: Ptr, t: ThreadId)
    requires Built(s, placed, p) && p !in s.all && p !in s.backend.live
    requires p in frozen.all && frozen.all == placed.all[p := placed.all[p].(pinCount := frozen.all[p].pinCount)]
    requires frozen == placed.(frozen := frozen.frozen, frozenSet := frozen.frozenSet, all := frozen.all)
    requires OwnsCapture(s, t) ==> p in frozen.frozen
    requires FrozenOnce(placed, frozen, t, p)
    ensures var s' := frozen.(all := frozen.all[p := frozen.all[p].(generation := Generation(s, t))]);
      && Granted(s, s', t, p) && s'.all[p].size == placed.all[p].size
      && s'.all[p].kind == placed.all[p].kind && s'.all[p].classIndex == placed.all[p].classIndex
  {}

  /** The tail shared by both growing paths: freeze the new block, then stamp it with the
      generation, or undo everything. */
  lemma FreezeAndStamp(s: Pool, placed: Pool, others: Batches, p: Ptr, t: ThreadId, faults: AllocFaults)
    requires Inv(s, others) && Inv(placed, others) && p != NULL && p !in s.backend.live
    requires Built(s, placed, p)
    ensures var (s', r) := Finish(placed, t, p, Generation(s, t), faults);
      && Inv(s', others)
      && (if r.Ok?
          then && r.value == p && Granted(s, s', t, p) && s'.all[p].size == placed.all[p].size
               && s'.all[p].kind == placed.all[p].kind && s'.all[p].classIndex == placed.all[p].classIndex
          else RolledBack(s, s', p, faults.freeFails))
  {
    FreezeKeeps(placed, others, p, t, faults.freeze);
    FreezeShape(placed, p, t, faults.freeze);
    var (frozen, ok) := Freeze(placed, p, t, faults.freeze);
    if ok {
      StampGrants(s, placed, frozen, p, t);
      TouchKeeps(frozen, others, p, frozen.all[p].(generation := Generation(s, t)));
    } else {
      RollbackRestores(s, others, p, placed, faults.freeFails);
    }
  }

  /** Class `c` is the smallest whose blocks are large enough. */
  ghost predicate SmallestClass(c: nat, size: nat) {
    c < |CLASS_SIZES| && size <= CLASS_SIZES[c] && forall d :: 0 <= d < c ==> CLASS_SIZES[d] < size
  }

  /** Some class has blocks of at least this size. */
  predicate InClasses(aligned: nat, exact: bool) {
    !exact && aligned <= CLASS_SIZES[|CLASS_SIZES| - 1]
  }

  /** An idle block that would do for this request once it is aligned: of the same size if the
      request is exact, of the smallest class that is large enough if there is one, else a large
      block that is large enough. */
  ghost predicate WouldServe(b: Block, aligned: nat, exact: bool) {
    && !b.inUse
    && if exact then b.kind == Exact && b.size == aligned
       else if InClasses(aligned, exact) then b.kind == SizeClass && SmallestClass(b.classIndex, aligned)
       else b.kind == Large && b.size >= aligned
  }

  /** The two searches of the code look for exactly these blocks. */
  lemma SearchesServe(b: Block, aligned: nat, exact: bool)
    ensures var c := FirstClass(aligned, 0);
      && (InClasses(aligned, exact) <==> !exact && c < |CLASS_SIZES|)
      && (WouldServe(b, aligned, exact) <==>
            if !exact && c < |CLASS_SIZES| then !b.inUse && b.kind == SizeClass && b.classIndex == c
            else Fits(b, aligned, exact))
  {
    FirstClassIsSmallest(aligned, 0);
    var c := FirstClass(aligned, 0);
    assert forall d :: 0 <= d < |CLASS_SIZES| ==> CLASS_SIZES[d] <= CLASS_SIZES[|CLASS_SIZES| - 1];
    if c < |CLASS_SIZES| && b.classIndex < |CLASS_SIZES| && SmallestClass(b.classIndex, aligned) {
      assert b.classIndex == c;
    }
  }

  ghost predicate NoneServes(s: Pool, aligned: nat, exact: bool) {
    forall p :: p in s.all ==> !WouldServe(s.all[p], aligned, exact)
  }

  /** The pool asked the backend: it grew, or the backend refused. */
  predicate AskedBackend(s: Pool, r: Outcome<Ptr, Error>) {
    (r.Ok? && r.value != NULL && r.value !in s.all) || r == Throw(BackendError)
  }

  lemma AllocateFromClassKeeps(s: Pool, others: Batches, t: ThreadId, c: nat, faults: AllocFaults)
    requires Inv(s, others) && Listed(s) && c < |CLASS_SIZES| && FaultsOk(s, faults)
    ensures var (s', r) := AllocateFromClass(s, t, c, faults);
      && Inv(s', others)
      && (r.Ok? ==> Granted(s, s', t, r.value) && s'.all[r.value].kind == SizeClass && s'.all[r.value].classIndex == c)
      && (r.Throw? ==> Untouched(s, s', faults))
  {
    FirstIdleFinds(s.all, s.free[c], 0);
    var i := FirstIdle(s.all, s.free[c], 0);
    if i < |s.free[c]| {
      ReuseClassKeeps(s, others, t, c, i, faults.freeze);
    } else if !faults.blockFails && faults.malloc.Some? {
      GrowClassKeeps(s, others, t, c, faults.malloc.value, faults);
    }
  }

  lemma IdleInClass(s: Pool, others: Batches, c: nat, i: nat)
    requires Inv(s, others) && c < |s.free| && i < |s.free[c]|
    ensures FreeIn(s.all, s.free[c][i], c) && s.all[s.free[c][i]].useCount == 0
  {
    assert s.free[c][i] in s.free[c];
  }

  lemma ReuseClassKeeps(s: Pool, others: Batches, t: ThreadId, c: nat, i: nat, faults: FreezeFaults)
    requires Inv(s, others) && c < |s.free| && i < |s.free[c]| && s.free[c][i] in s.all
    ensures var p := s.free[c][i];
      var (reused, ok) := Reuse(s, t, p, faults);
      var s' := reused.(free := s.free[c := Without(s.free[c], i)]);
      if ok then Inv(s', others) && Granted(s, s', t, p) && s'.all[p].kind == SizeClass && s'.all[p].classIndex == c
      else reused == s
  {
    hide Inv;
    var p := s.free[c][i];
    IdleInClass(s, others, c, i);
    FreezeKeeps(s, others, p, t, faults);
    var (frozen, ok) := Freeze(s, p, t, faults);
    if ok {
      ReuseFromClassKeeps(frozen, others, c, i, Generation(s, t));
    }
  }

  lemma ReuseLargeGrants(s: Pool, others: Batches, t: ThreadId, p: Ptr, faults: FreezeFaults)
    requires Inv(s, others) && IsLarge(s.all, p) && !s.all[p].inUse
    ensures var (s', ok) := Reuse(s, t, p, faults);
      if ok then Inv(s', others) && Granted(s, s', t, p) else s' == s
  {
    hide Inv;
    InvBlock(s, others, p);
    FreezeKeeps(s, others, p, t, faults);
    var (frozen, ok) := Freeze(s, p, t, faults);
    if ok {
      ReuseLargeKeeps(frozen, others, p, Generation(s, t));
    }
  }

  lemma AllocateLargeKeeps(s: Pool, others: Batches, t: ThreadId, size: nat, exact: bool, faults: AllocFaults)
    requires Inv(s, others) && Listed(s) && FaultsOk(s, faults) && size > 0
    ensures var (s', r) := AllocateLarge(s, t, size, exact, faults);
      && Inv(s', others)
      && (r.Ok? ==> && Granted(s, s', t, r.value)
                    && s'.all[r.value].kind == (if exact then Exact else Large)
                    && s'.all[r.value].size >= size
                    && (exact || r.value !in s.all ==> s'.all[r.value].size == size))
      && (r.Throw? ==> Untouched(s, s', faults))
  {
    FirstFitFinds(s.all, s.large, size, exact, 0);
    var i := FirstFit(s.all, s.large, size, exact, 0);
    if i < |s.large| {
      assert IsLarge(s.all, s.large[i]);
      ReuseLargeGrants(s, others, t, s.large[i], faults.freeze);
    } else if !faults.blockFails && faults.malloc.Some? {
      GrowLargeKeeps(s, others, t, size, exact, faults.malloc.value, faults);
    }
  }

  /** `(size + a - 1) / a * a` is the least multiple of the alignment that is at least the
      size, and it is refused exactly when adding the padding would not fit. */
  lemma AlignUpIsLeast(size: nat, a: nat)
    requires 0 < a <= SIZE_MAX
    ensures var r := AlignUp(size, a);
      && (r.None? <==> size + (a - 1) > SIZE_MAX)
      && (r.Some? ==> && r.value % a == 0 && size <= r.value <= SIZE_MAX
                      && forall m: nat :: m % a == 0 && m >= size ==> r.value <= m)
  {
    var q := (size + a - 1) / a;
    DivisionIsUnique(q * a, q, 0, a);
    forall m: nat | m % a == 0 && m >= size ensures q * a <= m {
      var k := m / a;
      if k < q {
        MulMono(k + 1, q, a);
        Distribute(k, 1, a);
      } else {
        MulMono(q, k, a);
      }
    }
  }

  /** The class chosen is the smallest that is large enough. */
  lemma {:induction false} FirstClassIsSmallest(size: nat, c: nat)
    requires c <= |CLASS_SIZES|
    ensures var k := FirstClass(size, c);
      c <= k <= |CLASS_SIZES|
      && (k < |CLASS_SIZES| ==> size <= CLASS_SIZES[k])
      && forall j :: c <= j < k ==> CLASS_SIZES[j] < size
    decreases |CLASS_SIZES| - c
  {
    if c == |CLASS_SIZES| || size <= CLASS_SIZES[c] {
    } else {
      FirstClassIsSmallest(size, c + 1);
    }
  }

  /** The block an allocation returns serves the request: an exact one has exactly the aligned
      size, an ordinary one comes from the smallest class that fits, or from the large list
      when none does; the three kinds never serve each other's requests. */
  ghost predicate Serves(b: Block, size: nat, exact: bool) {
    var aligned := AlignUp(size, ALIGNMENT);
    && aligned.Some?
    && size <= b.size
    && b.kind == (if exact then Exact else if aligned.value <= CLASS_SIZES[|CLASS_SIZES| - 1] then SizeClass else Large)
    && (exact ==> b.size == aligned.value)
    && (b.kind == SizeClass ==> && b.classIndex < |CLASS_SIZES|
                                && b.size == CLASS_SIZES[b.classIndex]
                                && forall d :: 0 <= d < b.classIndex ==> CLASS_SIZES[d] < size)
  }

  /** No entry of the free list is idle, so no block of that class is. */
  lemma ClassMiss(s: Pool, others: Batches, c: nat)
    requires Inv(s, others) && Listed(s) && c < |s.free| && FirstIdle(s.all, s.free[c], 0) == |s.free[c]|
    ensures forall p :: !FreeIn(s.all, p, c)
  {
    FirstIdleFinds(s.all, s.free[c], 0);
    forall p ensures !FreeIn(s.all, p, c) {
      assert p in s.free[c] <==> FreeIn(s.all, p, c);
    }
  }

  lemma LargeMiss(s: Pool, others: Batches, size: nat, exact: bool)
    requires Inv(s, others) && Listed(s) && FirstFit(s.all, s.large, size, exact, 0) == |s.large|
    ensures forall p :: p in s.all ==> !Fits(s.all[p], size, exact)
  {
    FirstFitFinds(s.all, s.large, size, exact, 0);
    forall p | p in s.all ensures !Fits(s.all[p], size, exact) {
      if s.all[p].kind != SizeClass {
        assert IsLarge(s.all, p);
        var k :| 0 <= k < |s.large| && s.large[k] == p;
      }
    }
  }

  lemma NoneServesIsMiss(s: Pool, others: Batches, aligned: nat, exact: bool)
    requires Inv(s, others) && Listed(s)
    ensures var c := FirstClass(aligned, 0);
      c <= |CLASS_SIZES| && (NoneServes(s, aligned, exact) <==>
        if !exact && c < |CLASS_SIZES| then FirstIdle(s.all, s.free[c], 0) >= |s.free[c]|
        else FirstFit(s.all, s.large, aligned, exact, 0) >= |s.large|)
  {
    hide Inv, WouldServe;
    var c := FirstClass(aligned, 0);
    FirstClassIsSmallest(aligned, 0);
    forall p | p in s.all
      ensures WouldServe(s.all[p], aligned, exact) <==>
        if !exact && c < |CLASS_SIZES| then FreeIn(s.all, p, c) else Fits(s.all[p], aligned, exact)
    {
      SearchesServe(s.all[p], aligned, exact);
    }
    if !exact && c < |CLASS_SIZES| {
      FirstIdleFinds(s.all, s.free[c], 0);
      var i := FirstIdle(s.all, s.free[c], 0);
      if i == |s.free[c]| {
        ClassMiss(s, others, c);
        forall p | p in s.all ensures !WouldServe(s.all[p], aligned, exact) {
          assert !FreeIn(s.all, p, c);
        }
      } else {
        IdleInClass(s, others, c, i);
        assert WouldServe(s.all[s.free[c][i]], aligned, exact);
      }
    } else {
      FirstFitFinds(s.all, s.large, aligned, exact, 0);
      var i := FirstFit(s.all, s.large, aligned, exact, 0);
      if i == |s.large| {
        LargeMiss(s, others, aligned, exact);
      } else {
        assert s.large[i] in s.large && WouldServe(s.all[s.large[i]], aligned, exact);
      }
    }
  }

  /** While some idle block would serve, nothing is asked of the backend: whatever it would have
      answered, and whatever else could have gone wrong with a new block, makes no difference to
      the pool or to the caller, whether the call returns or throws. */
  lemma ReusesBeforeGrowing(s: Pool, others: Batches, t: ThreadId, size: nat, exact: bool, faults: AllocFaults,
                            otherFaults: AllocFaults)
    requires Inv(s, others) && Listed(s) && faults.freeze == otherFaults.freeze
    requires AlignUp(size, ALIGNMENT).Some? && !NoneServes(s, AlignUp(size, ALIGNMENT).value, exact)
    ensures Allocate(s, t, size, exact, faults) == Allocate(s, t, size, exact, otherFaults)
    ensures !AskedBackend(s, Allocate(s, t, size, exact, faults).1)
  {
    hide Inv, Freeze, GrowClass, GrowLarge, NoneServes;
    NoneServesIsMiss(s, others, AlignUp(size, ALIGNMENT).value, exact);
  }

  /** When none would serve, the answer is the backend's: what is returned is the block it gave,
      and without one the pool stays as it was. */
  lemma GrowsOnMiss(s: Pool, others: Batches, t: ThreadId, size: nat, exact: bool, faults: AllocFaults)
    requires Inv(s, others) && Listed(s) && FaultsOk(s, faults) && size > 0
    requires AlignUp(size, ALIGNMENT).Some? && NoneServes(s, AlignUp(size, ALIGNMENT).value, exact)
    ensures var (s', r) := Allocate(s, t, size, exact, faults);
      && (r.Ok? ==> faults.malloc == Some(r.value) && !faults.blockFails)
      && (faults.blockFails ==> s' == s && r == Throw(BadAlloc))
      && (!faults.blockFails && faults.malloc.None? ==> s' == s && r == Throw(BackendError))
  {
    hide Inv, Freeze, NoneServes;
    NoneServesIsMiss(s, others, AlignUp(size, ALIGNMENT).value, exact);
  }

  /** Allocation keeps the invariant; it returns only a fresh block or one with no owner,
      and one that throws leaves everything but a leaked backend pointer as it was.  It asks
      the backend only when no idle block of the pool would have served. */
  lemma AllocateKeeps(s: Pool, others: Batches, t: ThreadId, size: nat, exact: bool, faults: AllocFaults)
    requires Inv(s, others) && Listed(s) && FaultsOk(s, faults)
    ensures var (s', r) := Allocate(s, t, size, exact, faults);
      && Inv(s', others)
      && (r == Ok(NULL) ==> s' == s && size == 0 && !exact)
      && (r.Ok? && r.value != NULL ==> Granted(s, s', t, r.value) && Serves(s'.all[r.value], size, exact))
      && (r.Ok? && r.value != NULL && r.value !in s.all && s'.all[r.value].kind != SizeClass ==>
            AlignUp(size, ALIGNMENT) == Some(s'.all[r.value].size))
      && (r.Throw? ==> Untouched(s, s', faults))
      && (AskedBackend(s, r) ==>
            AlignUp(size, ALIGNMENT).Some? && NoneServes(s, AlignUp(size, ALIGNMENT).value, exact))
  {
    hide Counted, FreeListsOk, LargeListOk, FrozenOk, BackendOk, AllocateFromClass, AllocateLarge, NoneServes;
    if size != 0 {
      AlignUpIsLeast(size, ALIGNMENT);
      var a := AlignUp(size, ALIGNMENT);
      if a.Some? {
        FirstClassIsSmallest(a.value, 0);
        var c := FirstClass(a.value, 0);
        if !exact && c < |CLASS_SIZES| {
          AllocateFromClassKeeps(s, others, t, c, faults);
          ServesFromClass(size, c);
        } else {
          AllocateLargeKeeps(s, others, t, a.value, exact, faults);
        }
      }
    }
    if AlignUp(size, ALIGNMENT).Some? && !NoneServes(s, AlignUp(size, ALIGNMENT).value, exact) {
      ReusesBeforeGrowing(s, others, t, size, exact, faults, faults);
    }
  }

  /** If this allocation throws, the pointer the backend gave it stays out: the request reached
      the backend, was granted, and the free that undoes it is refused. */
  ghost predicate LeaksIfThrown(s: Pool, size: nat, exact: bool, faults: AllocFaults) {
    && size > 0 && AlignUp(size, ALIGNMENT).Some? && NoneServes(s, AlignUp(size, ALIGNMENT).value, exact)
    && !faults.blockFails && faults.malloc.Some? && faults.freeFails
  }

  /** What a failed allocation leaves behind, to the pointer. */
  lemma ThrownLeaksExactly(s: Pool, others: Batches, t: ThreadId, size: nat, exact: bool, faults: AllocFaults)
    requires Inv(s, others) && Listed(s) && FaultsOk(s, faults)
    ensures var (s', r) := Allocate(s, t, size, exact, faults);
      r.Throw? ==>
        s' == if LeaksIfThrown(s, size, exact, faults)
              then s.(backend := Malloc(s.backend, faults.malloc.value)) else s
  {
    hide Inv, NoneServes, GrowClass, GrowLarge, Reuse;
    if size > 0 && AlignUp(size, ALIGNMENT).Some? {
      var aligned := AlignUp(size, ALIGNMENT).value;
      var c := FirstClass(aligned, 0);
      AlignUpIsLeast(size, ALIGNMENT);
      NoneServesIsMiss(s, others, aligned, exact);
      if NoneServes(s, aligned, exact) {
        if !faults.blockFails && faults.malloc.Some? {
          GrowClassOrLarge(s, others, t, aligned, exact, faults);
        }
      } else if !exact && c < |CLASS_SIZES| {
        ReuseClassKeeps(s, others, t, c, FirstIdle(s.all, s.free[c], 0), faults.freeze);
      } else {
        FirstFitFinds(s.all, s.large, aligned, exact, 0);
        ReuseLargeGrants(s, others, t, s.large[FirstFit(s.all, s.large, aligned, exact, 0)], faults.freeze);
      }
    }
  }

  lemma GrowClassOrLarge(s: Pool, others: Batches, t: ThreadId, aligned: nat, exact: bool, faults: AllocFaults)
    requires Inv(s, others) && Listed(s) && FaultsOk(s, faults) && faults.malloc.Some? && aligned > 0
    ensures var c := FirstClass(aligned, 0);
      c < |CLASS_SIZES| ==>
        var (s', r) := GrowClass(s, t, c, faults.malloc.value, faults);
        r.Throw? ==> RolledBack(s, s', faults.malloc.value, faults.freeFails)
    ensures var (s', r) := GrowLarge(s, t, aligned, exact, faults.malloc.value, faults);
      r.Throw? ==> RolledBack(s, s', faults.malloc.value, faults.freeFails)
  {
    hide Inv, GrowClass, GrowLarge;
    var c := FirstClass(aligned, 0);
    if c < |CLASS_SIZES| {
      GrowClassKeeps(s, others, t, c, faults.malloc.value, faults);
    }
    GrowLargeKeeps(s, others, t, aligned, exact, faults.malloc.value, faults);
  }

  /** Class sizes are multiples of the alignment, so aligning never changes the class. */
  lemma ServesFromClass(size: nat, c: nat)
    requires AlignUp(size, ALIGNMENT).Some?
    requires c == FirstClass(AlignUp(size, ALIGNMENT).value, 0) < |CLASS_SIZES|
    ensures size <= CLASS_SIZES[c] && forall d :: 0 <= d < c ==> CLASS_SIZES[d] < size
    ensures AlignUp(size, ALIGNMENT).value <= CLASS_SIZES[|CLASS_SIZES| - 1]
  {
    AlignUpIsLeast(size, ALIGNMENT);
    FirstClassIsSmallest(AlignUp(size, ALIGNMENT).value, 0);
    forall d | 0 <= d < c ensures CLASS_SIZES[d] < size {
      assert CLASS_SIZES[d] % ALIGNMENT == 0;
    }
  }

  // ---------------------------------------------------------------- owners

  /** The last owner gives the block back to a free list that cannot grow. */
  predicate CannotReturn(b: Block, pushFails: bool) {
    b.useCount == 1 && b.kind == SizeClass && pushFails
  }

  /** A release is accepted exactly while the block has an owner, unless its last owner meets a
      free list that cannot grow.  One owner fewer; the last one returns a size-class block to
      its own list; every throw leaves the pool as it was. */
  lemma DeallocateKeeps(s: Pool, others: Batches, p: Ptr, pushFails: bool)
    requires Inv(s, others) && Listed(s)
    ensures var (s', r) := Deallocate(s, p, pushFails);
      && Inv(s', others)
      && (r.Throw? || p == NULL ==> s' == s)
      && (r.Ok? <==> p == NULL || (p in s.all && s.all[p].useCount > 0 && !CannotReturn(s.all[p], pushFails)))
      && (r.Throw? ==> r.error == if p !in s.all then NotOwned
                                  else if s.all[p].useCount == 0 then DoubleFree else BadAlloc)
      && (r.Ok? && p != NULL ==>
            && p in s.all && s.all[p].useCount > 0
            && s'.all.Keys == s.all.Keys
            && s'.all[p] == s.all[p].(useCount := s.all[p].useCount - 1, inUse := s.all[p].useCount > 1)
            && (forall q :: q in s.all && q != p ==> s'.all[q] == s.all[q])
            && s' == s.(all := s'.all, free := s'.free))
  {
    hide Inv;
    if p != NULL && p in s.all {
      InvBlock(s, others, p);
    }
    if p != NULL && p in s.all && s.all[p].inUse {
      var b := s.all[p];
      if b.useCount > 1 {
        TouchKeeps(s, others, p, b.(useCount := b.useCount - 1));
      } else if !(b.kind == SizeClass && pushFails) {
        LastOwnerKeeps(s, others, p);
      }
    }
  }

  lemma LastOwnerKeeps(s: Pool, others: Batches, p: Ptr)
    requires Inv(s, others) && p in s.all && s.all[p].inUse
    requires s.all[p].kind == SizeClass ==> s.all[p].classIndex < |s.free|
    ensures var b := s.all[p];
      Inv(s.(free := if b.kind == SizeClass then s.free[b.classIndex := s.free[b.classIndex] + [p]] else s.free,
             all := s.all[p := b.(useCount := 0, inUse := false)]), others)
  {
    var b := s.all[p];
    var s' := s.(free := if b.kind == SizeClass then s.free[b.classIndex := s.free[b.classIndex] + [p]] else s.free,
                 all := s.all[p := b.(useCount := 0, inUse := false)]);
    if b.kind == SizeClass {
      assert !FreeIn(s.all, p, b.classIndex);
      DistinctAppend(s.free[b.classIndex], p);
    }
    forall c, q | 0 <= c < |s'.free| ensures q in s'.free[c] <==> FreeIn(s'.all, q, c) {
      assert q in s.free[c] <==> FreeIn(s.all, q, c);
    }
    forall q ensures q in s'.large <==> IsLarge(s'.all, q) {
      assert IsLarge(s.all, q) <==> IsLarge(s'.all, q);
    }
    assert Counted(s'.all, AllBatches(s', others));
  }

  /** One owner more, even for an idle block, which thereby leaves its free list; the answer
      is the block's physical size. */
  lemma RetainKeeps(s: Pool, others: Batches, p: Ptr)
    requires Inv(s, others) && Listed(s)
    ensures var (s', r) := Retain(s, p);
      && Inv(s', others)
      && (r.Throw? <==> p !in s.all)
      && (r.Throw? ==> s' == s)
      && (r.Ok? ==>
            && r.value == s.all[p].size
            && s'.all == s.all[p := s.all[p].(inUse := true, useCount := s.all[p].useCount + 1)]
            && s' == s.(all := s'.all, free := s'.free))
  {
    if p in s.all {
      var b := s.all[p];
      var s' := Retain(s, p).0;
      if b.kind == SizeClass {
        var list := s.free[b.classIndex];
        RemoveDistinct(list, p);
        forall q ensures q in Remove(list, p) <==> q in list && q != p {
          RemoveMembers(list, p, q);
        }
      }
      forall c, q | 0 <= c < |s'.free| ensures q in s'.free[c] <==> FreeIn(s'.all, q, c) {
        assert q in s.free[c] <==> FreeIn(s.all, q, c);
      }
      forall q ensures q in s'.large <==> IsLarge(s'.all, q) {
        assert IsLarge(s.all, q) <==> IsLarge(s'.all, q);
      }
      assert Counted(s'.all, AllBatches(s', others));
    }
  }

  // ---------------------------------------------------------------- transactions

  /** Updates that leave blocks, lists and the backend alone. */
  lemma RelabelKeeps(s: Pool, s': Pool)
    requires Placed(s) && FrozenOk(s')
    requires s' == s.(pinned := s'.pinned, owner := s'.owner, generation := s'.generation,
                      frozen := s'.frozen, frozenSet := s'.frozenSet)
    requires s.generation <= s'.generation <= GENERATION_MAX
    ensures Placed(s')
  {
    forall p | p in s'.all ensures BlockOk(p, s'.all[p], s'.generation) {
      assert BlockOk(p, s.all[p], s.generation);
    }
    forall c, q | 0 <= c < |s'.free| ensures q in s'.free[c] <==> FreeIn(s'.all, q, c) {
      assert q in s.free[c] <==> FreeIn(s.all, q, c);
    }
    forall q ensures q in s'.large <==> IsLarge(s'.all, q) {
      assert q in s.large <==> IsLarge(s.all, q);
    }
  }

  /** A transaction opens exactly when none is open and a generation is left, with a generation
      larger than every generation so far; the "stale blocks" refusal is unreachable. */
  lemma BeginKeeps(s: Pool, others: Batches, t: ThreadId)
    requires Inv(s, others)
    ensures var (s', r) := Begin(s, t);
      && Inv(s', others)
      && r != Throw(StaleBlocks)
      && (r.Ok? <==> !s.pinned && s.generation < GENERATION_MAX)
      && (r.Throw? ==> s' == s && r.error == if s.pinned then AlreadyActive else GenerationExhausted)
      && (r.Ok? ==> && OwnsCapture(s', t) && s'.generation == s.generation + 1 && s'.frozen == []
                    && s' == s.(generation := s.generation + 1, pinned := true, owner := Some(t)))
  {
    if !s.pinned {
      assert s.frozenSet == {} by {
        assert forall p :: p in s.frozen <==> p in s.frozenSet;
      }
      if s.generation < GENERATION_MAX {
        RelabelKeeps(s, Begin(s, t).0);
      }
    }
  }

  /** Committing moves the whole frozen list to the committing thread, pin for pin; without a
      transaction there is no batch, and another thread's transaction is refused. */
  lemma DetachKeeps(s: Pool, others: Batches, t: ThreadId)
    requires Inv(s, others) && Committing(t) !in others
    ensures var r := Detach(s, t).1;
      (r.Throw? <==> s.pinned && s.owner != Some(t)) && (r == Ok(None) <==> !s.pinned)
      && (r.Throw? ==> r.error == WrongThread)
    ensures var (s', r) := Detach(s, t);
      if r.Ok? && r.value.Some?
      then && Inv(s', others[Committing(t) := r.value.value])
           && OwnsCapture(s, t) && r.value.value == s.frozen
           && s' == s.(pinned := false, owner := None, frozen := [], frozenSet := {})
      else s' == s && !OwnsCapture(s, t)
  {
    if OwnsCapture(s, t) {
      var s' := Detach(s, t).0;
      var bs := AllBatches(s, others);
      var renamed := (bs - {Current})[Committing(t) := bs[Current]];
      var after := AllBatches(s', others[Committing(t) := s.frozen]);
      assert after == renamed[Current := []];
      RelabelKeeps(s, s');
      forall p | p in s'.all ensures s'.all[p].pinCount == |Holders(after, p)| {
        HoldersRename(bs, Current, Committing(t), p);
        HoldersEmpty(renamed, Current, p);
      }
      assert Counted(s'.all, after);
    }
  }

  /** A committed batch becomes a lease, pin for pin. */
  lemma LeaseKeeps(s: Pool, others: Batches, from: Holder, to: Holder)
    requires Inv(s, others) && from in others && to !in others && to != Current
    ensures Inv(s, (others - {from})[to := others[from]])
  {
    var bs := AllBatches(s, others);
    var after := AllBatches(s, (others - {from})[to := others[from]]);
    assert after == (bs - {from})[to := bs[from]];
    forall p | p in s.all ensures s.all[p].pinCount == |Holders(after, p)| {
      HoldersRename(bs, from, to, p);
    }
    assert Counted(s.all, after);
  }

  /** Only pin counts differ. */
  ghost predicate SameButPins(all: map<Ptr, Block>, all': map<Ptr, Block>) {
    && all'.Keys == all.Keys
    && forall p :: p in all ==> all'[p] == all[p].(pinCount := all'[p].pinCount)
  }

  lemma PlaceIgnoresPins(s: Pool, s': Pool)
    requires Placed(s) && s' == s.(all := s'.all) && SameButPins(s.all, s'.all)
    ensures Placed(s')
  {
    forall p | p in s'.all ensures BlockOk(p, s'.all[p], s'.generation) {
      assert BlockOk(p, s.all[p], s.generation);
    }
    forall c, q | 0 <= c < |s'.free| ensures q in s'.free[c] <==> FreeIn(s'.all, q, c) {
      assert q in s.free[c] <==> FreeIn(s.all, q, c);
    }
    forall q ensures q in s'.large <==> IsLarge(s'.all, q) {
      assert q in s.large <==> IsLarge(s.all, q);
    }
  }

  /** Releasing a batch takes exactly one pin from each of its blocks. */
  lemma ReleaseKeeps(s: Pool, others: Batches, h: Holder)
    requires Inv(s, others) && h in others
    ensures var s' := Release(s, others[h]);
      && Inv(s', others - {h})
      && SameButPins(s.all, s'.all)
      && (forall p :: p in others[h] ==> p in s.all && s.all[p].pinCount > 0)
      && s'.all == Released(s.all, others[h])
  {
    hide Counted, FreeListsOk, LargeListOk, BackendOk, BlockOk;
    var s' := Release(s, others[h]);
    var bs := AllBatches(s, others);
    ReleaseKeepsCount(s.all, bs, h);
    PlaceIgnoresPins(s, s');
    assert AllBatches(s', others - {h}) == bs - {h};
  }

  /** Clearing the list of a transaction whose pins were just released. */
  lemma ClearKeepsCount(all: map<Ptr, Block>, bs: Batches)
    requires Counted(all, bs - {Current})
    ensures Counted(all, (bs - {Current})[Current := []])
  {
    var after := (bs - {Current})[Current := []];
    forall p | p in all ensures all[p].pinCount == |Holders(after, p)| {
      HoldersEmpty(bs - {Current}, Current, p);
    }
  }

  lemma CloseKeeps(s: Pool, others: Batches)
    requires Inv(s, others)
    ensures var s' := Release(s, s.frozen).(pinned := false, owner := None, frozen := [], frozenSet := {});
      && Inv(s', others)
      && SameButPins(s.all, s'.all)
      && (forall p :: p in s.frozen ==> p in s.all && s.all[p].pinCount > 0)
      && s'.all == Released(s.all, s.frozen)
  {
    hide Counted, FreeListsOk, LargeListOk, BackendOk, BlockOk;
    var released := Release(s, s.frozen);
    var s' := released.(pinned := false, owner := None, frozen := [], frozenSet := {});
    var bs := AllBatches(s, others);
    ReleaseKeepsCount(s.all, bs, Current);
    PlaceIgnoresPins(s, released);
    RelabelKeeps(released, s');
    assert AllBatches(s', others) == (bs - {Current})[Current := []];
    ClearKeepsCount(s'.all, bs);
  }

  /** A cancelled transaction gives up exactly its own pins. */
  lemma CancelKeeps(s: Pool, others: Batches, t: ThreadId)
    requires Inv(s, others)
    ensures var (s', r) := Cancel(s, t);
      && Inv(s', others)
      && (r.Throw? <==> s.pinned && s.owner != Some(t))
      && (r.Throw? ==> s' == s)
      && (r.Ok? ==>
            && SameButPins(s.all, s'.all)
            && (forall p :: p in s.frozen ==> p in s.all && s.all[p].pinCount > 0)
            && s'.all == Released(s.all, s.frozen)
            && s' == s.(all := s'.all, pinned := false, owner := None, frozen := [], frozenSet := {}))
  {
    if !(s.pinned && s.owner != Some(t)) {
      CloseKeeps(s, others);
    }
  }

  /** Exactly the capturing thread can capture a block, any block of the pool; it is frozen once. */
  lemma RetainForCaptureKeeps(s: Pool, others: Batches, p: Ptr, t: ThreadId, faults: FreezeFaults)
    requires Inv(s, others)
    ensures var (s', r) := RetainForCapture(s, p, t, faults);
      && Inv(s', others)
      && (r.Ok? <==> s.pinned && s.owner == Some(t) && p in s.all && !FreezeRefused(s, t, p, faults))
      && (r.Throw? ==> s' == s && r.error == if !(s.pinned && s.owner == Some(t)) then NotActive
                                             else if p !in s.all then NotOwned else BadAlloc)
      && (r.Ok? ==> && OwnsCapture(s, t) && p in s.all && p in s'.frozen
                    && FrozenOnce(s, s', t, p) && SameButPins(s.all, s'.all)
                    && (forall q :: q in s.all && q != p ==> s'.all[q] == s.all[q])
                    && r.value == (s.all[p].generation != s.generation))
      && s' == s.(all := s'.all, frozen := s'.frozen, frozenSet := s'.frozenSet)
  {
    hide Inv, Freeze, FrozenOnce;
    if p in s.all {
      FreezeKeeps(s, others, p, t, faults);
    }
  }

  // ---------------------------------------------------------------- trim

  /** One pass frees evictable blocks of the list and no others, each while the backend still
      holds it; it ends at the first refused free. */
  lemma {:induction false} SweepFrees(list: seq<Ptr>, evictable: set<Ptr>, failing: set<Ptr>, b: Backend)
    requires Distinct(list) && forall p :: p in list ==> p in b.live
    ensures var pass := Sweep(list, evictable, failing, b);
      && Distinct(pass.kept)
      && (forall p :: p in list <==> p in pass.kept || p in pass.freed)
      && (forall p :: p in pass.freed ==> p in evictable && p !in failing && p !in pass.kept)
      && pass.backend == b.(live := b.live - pass.freed)
      && (pass.done ==> forall p :: p in pass.kept ==> p !in evictable)
      && (!pass.done ==> exists p :: p in pass.kept && p in evictable && p in failing)
  {
    if list == [] {
    } else {
      var p := list[0];
      assert list == [p] + list[1..];
      assert p !in list[1..];
      if p !in evictable {
        SweepFrees(list[1..], evictable, failing, b);
        var rest := Sweep(list[1..], evictable, failing, b);
        if !rest.done {
          var q :| q in rest.kept && q in evictable && q in failing;
          assert q in [p] + rest.kept;
        }
      } else if p !in failing {
        SweepFrees(list[1..], evictable, failing, Free(b, p, false));
      }
    }
  }

  /** Some idle, unpinned blocks are gone; everything else is as before. */
  ghost predicate Trimmed(s: Pool, s': Pool) {
    && s'.all.Keys <= s.all.Keys
    && (forall p :: p in s'.all ==> s'.all[p] == s.all[p])
    && (forall p :: p in s.all && p !in s'.all ==> s.all[p].pinCount == 0 && s.all[p].useCount == 0)
    && s'.backend == s.backend.(live := s.backend.live - (s.all.Keys - s'.all.Keys))
    && s' == s.(all := s'.all, free := s'.free, large := s'.large, backend := s'.backend)
  }

  function Removed(s: Pool, s': Pool): set<Ptr> {
    s.all.Keys - s'.all.Keys
  }

  lemma TrimmedTransitive(a: Pool, b: Pool, c: Pool)
    requires Trimmed(a, b) && Trimmed(b, c)
    ensures Trimmed(a, c)
  {
    assert a.backend.live - (a.all.Keys - b.all.Keys) - (b.all.Keys - c.all.Keys)
        == a.backend.live - (a.all.Keys - c.all.Keys);
  }

  lemma EvictionKeepsCount(s: Pool, s': Pool, others: Batches)
    requires Inv(s, others) && s'.frozen == s.frozen
    requires s'.all.Keys <= s.all.Keys && forall p :: p in s'.all ==> s'.all[p] == s.all[p]
    requires forall p :: p in s.all && p !in s'.all ==> s.all[p].pinCount == 0
    ensures Counted(s'.all, AllBatches(s', others))
    ensures forall p :: p in s.frozen ==> p in s'.all
  {
    var bs := AllBatches(s, others);
    assert AllBatches(s', others) == bs;
    forall h, p | h in bs && p in bs[h] ensures p in s'.all {
      HeldIsPinned(s.all, bs, h, p);
    }
    forall p | p in s.frozen ensures p in s'.all {
      assert p in bs[Current];
    }
  }

  lemma EvictKeeps(s: Pool, s': Pool, others: Batches)
    requires Inv(s, others) && Trimmed(s, s')
    requires |s'.free| == |s.free|
    requires forall c :: 0 <= c < |s.free| ==> Distinct(s'.free[c])
    requires forall c, p :: 0 <= c < |s.free| ==> (p in s'.free[c] <==> p in s.free[c] && p in s'.all)
    requires Distinct(s'.large) && forall p :: p in s'.large <==> p in s.large && p in s'.all
    ensures Inv(s', others)
  {
    EvictionKeepsCount(s, s', others);
    forall c, p | 0 <= c < |s'.free| ensures p in s'.free[c] <==> FreeIn(s'.all, p, c) {
      assert p in s.free[c] <==> FreeIn(s.all, p, c);
    }
    forall p ensures p in s'.large <==> IsLarge(s'.all, p) {
      assert p in s.large <==> IsLarge(s.all, p);
    }
  }

  lemma SweepClassKeeps(s: Pool, others: Batches, failing: set<Ptr>, c: nat)
    requires Inv(s, others) && c < |s.free|
    ensures var pass := Sweep(s.free[c], Unpinned(s), failing, s.backend);
      var s' := s.(free := s.free[c := pass.kept], all := s.all - pass.freed, backend := pass.backend);
      && Inv(s', others) && Trimmed(s, s')
      && (pass.done ==> forall p :: p in s'.free[c] ==> p in s'.all && s'.all[p].pinCount > 0)
      && Removed(s, s') !! failing
      && (!pass.done ==> exists p :: p in Idle(s) && p in failing)
  {
    hide Counted, FrozenOk;
    forall p | p in s.free[c] ensures p in s.all && p in s.backend.live {
      assert FreeIn(s.all, p, c);
    }
    SweepFrees(s.free[c], Unpinned(s), failing, s.backend);
    var pass := Sweep(s.free[c], Unpinned(s), failing, s.backend);
    var s' := s.(free := s.free[c := pass.kept], all := s.all - pass.freed, backend := pass.backend);
    forall p | p in pass.freed ensures FreeIn(s.all, p, c) {
      assert p in s.free[c];
    }
    assert s.all.Keys - s'.all.Keys == pass.freed;
    forall d, p | 0 <= d < |s.free| ensures p in s'.free[d] <==> p in s.free[d] && p in s'.all {
      assert p in s.free[d] <==> FreeIn(s.all, p, d);
    }
    forall p ensures p in s'.large <==> p in s.large && p in s'.all {
      assert p in s.large <==> IsLarge(s.all, p);
    }
    EvictKeeps(s, s', others);
    if !pass.done {
      var p :| p in pass.kept && p in Unpinned(s) && p in failing;
      assert p in s.free[c];
      assert p in Idle(s);
    }
  }

  lemma StillPinned(s: Pool, s': Pool, others: Batches, c: nat)
    requires Inv(s', others) && Trimmed(s, s') && c < |s.free| == |s'.free| && s'.free[c] == s.free[c]
    requires forall p :: p in s.free[c] ==> p in s.all && s.all[p].pinCount > 0
    ensures forall p :: p in s'.free[c] ==> p in s'.all && s'.all[p].pinCount > 0
  {
    forall p | p in s'.free[c] ensures p in s'.all && s'.all[p].pinCount > 0 {
      assert FreeIn(s'.all, p, c);
    }
  }

  lemma {:induction false} TrimClassesKeeps(s: Pool, others: Batches, failing: set<Ptr>, c: nat)
    requires Inv(s, others) && c <= |s.free|
    ensures var (s', done) := TrimClasses(s, failing, c);
      && Inv(s', others) && Trimmed(s, s') && |s'.free| == |s.free|
      && (forall d :: 0 <= d < c ==> s'.free[d] == s.free[d])
      && (done ==> forall d, p :: c <= d < |s'.free| && p in s'.free[d] ==> p in s'.all && s'.all[p].pinCount > 0)
      && (done ==> Removed(s, s') !! failing)
      && (!done ==> exists p :: p in Idle(s) && p in failing)
    decreases |s.free| - c
  {
    hide Sweep, Placed, Counted;
    if c == |s.free| {
    } else {
      SweepClassKeeps(s, others, failing, c);
      var pass := Sweep(s.free[c], Unpinned(s), failing, s.backend);
      var next := s.(free := s.free[c := pass.kept], all := s.all - pass.freed, backend := pass.backend);
      if pass.done {
        TrimClassesKeeps(next, others, failing, c + 1);
        var (s', done) := TrimClasses(next, failing, c + 1);
        TrimmedTransitive(s, next, s');
        if !done {
          var p :| p in Idle(next) && p in failing;
          assert p in Idle(s);
        }
        if done {
          StillPinned(next, s', others, c);
        }
      }
    }
  }

  lemma TrimLargeKeeps(s: Pool, others: Batches, failing: set<Ptr>)
    requires Inv(s, others)
    ensures var (s', done) := TrimLarge(s, failing);
      && Inv(s', others) && Trimmed(s, s') && s'.free == s.free
      && (done ==> forall p :: p in s'.large ==> p in s'.all && (s'.all[p].pinCount > 0 || s'.all[p].inUse))
      && Removed(s, s') !! failing
      && (!done ==> exists p :: p in Idle(s) && p in failing)
  {
    forall p | p in s.large ensures p in s.all && p in s.backend.live {
      assert IsLarge(s.all, p);
    }
    SweepFrees(s.large, Idle(s), failing, s.backend);
    var pass := Sweep(s.large, Idle(s), failing, s.backend);
    var s' := TrimLarge(s, failing).0;
    forall p | p in pass.freed ensures IsLarge(s.all, p) && p in Idle(s) {
      assert p in s.large;
    }
    assert s.all.Keys - s'.all.Keys == pass.freed;
    forall d, p | 0 <= d < |s.free| ensures p in s'.free[d] <==> p in s.free[d] && p in s'.all {
      assert p in s.free[d] <==> FreeIn(s.all, p, d);
    }
    EvictKeeps(s, s', others);
  }

  /** A trim that returns leaves exactly the blocks that are in use or pinned; one that throws
      midway has removed only idle unpinned ones.  It throws exactly when the backend refuses
      one of those. */
  lemma TrimKeeps(s: Pool, others: Batches, failing: set<Ptr>)
    requires Inv(s, others)
    ensures var (s', r) := Trim(s, failing);
      && Inv(s', others) && Trimmed(s, s')
      && (r.Ok? ==> s'.all.Keys == set p | p in s.all && (s.all[p].inUse || s.all[p].pinCount > 0))
      && (r.Ok? <==> Idle(s) !! failing)
  {
    hide Inv, Sweep, TrimClasses, TrimLarge;
    TrimClassesKeeps(s, others, failing, 0);
    var (classes, ok) := TrimClasses(s, failing, 0);
    if ok {
      TrimLargeKeeps(classes, others, failing);
      var (s', done) := TrimLarge(classes, failing);
      TrimmedTransitive(s, classes, s');
      if done {
        forall p | p in s.all ensures s.all[p].inUse <==> s.all[p].useCount > 0 {
          InvBlock(s, others, p);
        }
        NoIdleLeft(classes, s', others);
        assert forall p :: p in Idle(s) ==> p in Removed(s, classes) || p in Removed(classes, s');
      } else {
        var p :| p in Idle(classes) && p in failing;
        assert p in Idle(s);
      }
    } else {
      var p :| p in Idle(s) && p in failing;
    }
  }

  lemma NoIdleLeft(classes: Pool, s: Pool, others: Batches)
    requires Inv(s, others) && s.free == classes.free && Trimmed(classes, s)
    requires forall d, p :: 0 <= d < |classes.free| && p in classes.free[d] ==>
      p in classes.all && classes.all[p].pinCount > 0
    requires forall p :: p in s.large ==> p in s.all && (s.all[p].pinCount > 0 || s.all[p].inUse)
    ensures forall p :: p in s.all ==> s.all[p].inUse || s.all[p].pinCount > 0
  {
    forall p | p in s.all ensures s.all[p].inUse || s.all[p].pinCount > 0 {
      if s.all[p].kind == SizeClass {
        if !s.all[p].inUse {
          assert FreeIn(s.all, p, s.all[p].classIndex);
          assert p in classes.free[s.all[p].classIndex];
        }
      } else {
        assert IsLarge(s.all, p);
      }
    }
  }

  /** Destruction frees every block once, while the backend still holds it, or frees nothing;
      the backend keeps exactly the blocks it refused to take back and what was never the
      pool's. */
  lemma DestroyFrees(s: Pool, others: Batches, drained: bool, failing: set<Ptr>)
    requires Inv(s, others)
    ensures var b := Destroy(s, drained, failing);
      && !b.misused
      && (!drained ==> b == s.backend)
      && (drained ==> forall p :: p in b.live <==> p in s.backend.live && (p in s.all ==> p in failing))
  {}

  /** The order in which blocks are added up does not matter. */
  lemma {:induction false} TotalPinnedSplits(all: map<Ptr, Block>, p: Ptr)
    requires p in all
    ensures TotalPinned(all) == (if all[p].pinCount > 0 then all[p].size else 0) + TotalPinned(all - {p})
    decreases |all|
  {
    var q :| q in all && TotalPinned(all) == (if all[q].pinCount > 0 then all[q].size else 0) + TotalPinned(all - {q});
    if q == p {
    } else {
      TotalPinnedSplits(all - {q}, p);
      TotalPinnedSplits(all - {p}, q);
      assert all - {q} - {p} == all - {p} - {q};
    }
  }

  lemma {:induction false} NoBytesNoPins(all: map<Ptr, Block>)
    requires forall p :: p in all ==> all[p].size > 0
    ensures TotalPinned(all) == 0 <==> forall p :: p in all ==> all[p].pinCount == 0
    decreases |all|
  {
    if all == map[] {
    } else {
      var p :| p in all;
      TotalPinnedSplits(all, p);
      NoBytesNoPins(all - {p});
      assert forall q :: q in all <==> q == p || q in all - {p};
      assert forall q :: q in all - {p} ==> (all - {p})[q] == all[q];
    }
  }

  /** The backend's regions lie in the address space and do not overlap. */
  ghost predicate RegionsApart(all: map<Ptr, Block>) {
    && (forall p :: p in all ==> p != NULL && all[p].size > 0 && p + all[p].size <= SIZE_MAX + 1)
    && (forall p, q :: p in all && q in all && p < q ==> p + all[p].size <= q)
  }

  lemma {:induction false} HighestBlock(all: map<Ptr, Block>) returns (top: Ptr)
    requires all != map[]
    ensures top in all && forall p :: p in all ==> p <= top
    decreases |all|
  {
    var q :| q in all;
    if all - {q} == map[] {
      top := q;
      assert forall p :: p in all && p != q ==> p in all - {q};
    } else {
      top := HighestBlock(all - {q});
      assert forall p :: p in all && p != q ==> p in all - {q};
      if top < q {
        top := q;
      }
    }
  }

  /** Regions that lie apart below an address cannot sum up to that address. */
  lemma {:induction false} PinnedBelow(all: map<Ptr, Block>, end: nat)
    requires RegionsApart(all) && end > 0 && forall p :: p in all ==> p + all[p].size <= end
    ensures TotalPinned(all) < end
    decreases |all|
  {
    if all == map[] {
    } else {
      var p := HighestBlock(all);
      TotalPinnedSplits(all, p);
      PinnedBelow(all - {p}, p);
    }
  }

  /** What `pinned_bytes` answers on any pool of a run: the sum itself, since blocks that lie
      apart cannot overflow it; and it is zero exactly when nobody holds any block. */
  lemma PinnedBytesByHolders(s: Pool, others: Batches)
    requires Inv(s, others)
    ensures TotalPinned(s.all) == 0 <==> forall p :: p in s.all ==> Holders(AllBatches(s, others), p) == {}
    ensures RegionsApart(s.all) ==> Wrap(TotalPinned(s.all)) == TotalPinned(s.all)
  {
    forall p | p in s.all ensures BlockOk(p, s.all[p], s.generation) {
      InvBlock(s, others, p);
    }
    NoBytesNoPins(s.all);
    forall p | p in s.all ensures s.all[p].pinCount == 0 <==> Holders(AllBatches(s, others), p) == {} {
      assert s.all[p].pinCount == |Holders(AllBatches(s, others), p)|;
    }
    if RegionsApart(s.all) {
      PinnedBelow(s.all, SIZE_MAX + 1);
    }
  }
}
