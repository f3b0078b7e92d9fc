/** `ReusableMemoryPool::State` as the source has it: block objects shared between lists, a
    map and a set, updated in place.  Every method is proved to do to the pool, seen as a
    value, what PoolModel says. */
module PoolState {
  import opened Wrappers
  import opened PoolModel
  import opened PoolInvariant
  import opened PoolSteps
  import M = PoolModel

  class Block {
    const ptr: Ptr
    const size: nat
    const kind: Kind
    const classIndex: nat
    var pinCount: nat
    var inUse: bool
    var useCount: nat
    var generation: nat

    constructor (ptr: Ptr, size: nat, kind: Kind, classIndex: nat)
      ensures View() == FreshBlock(ptr, size, kind, classIndex)
      ensures this.ptr == ptr && this.kind == kind && this.classIndex == classIndex
    {
      this.ptr, this.size, this.kind, this.classIndex := ptr, size, kind, classIndex;
      pinCount, inUse, useCount, generation := 0, true, 1, 0;
    }

    ghost function View(): M.Block
      reads this
    {
      M.Block(ptr, size, kind, classIndex, pinCount, inUse, useCount, generation)
    }
  }

  /** No free list and no frozen list names this address. */
  ghost predicate Unlisted(free: seq<seq<Ptr>>, frozen: seq<Ptr>, frozenSet: set<Ptr>, p: Ptr) {
    && (forall c :: 0 <= c < |free| ==> p !in free[c])
    && p !in frozen && p !in frozenSet
  }

  /** The objects of a list and their addresses, as the map knows them. */
  ghost predicate ListedIn(all: map<Ptr, Block>, blocks: seq<Block>, ptrs: seq<Ptr>) {
    && |blocks| == |ptrs|
    && forall i :: 0 <= i < |blocks| ==> blocks[i].ptr == ptrs[i] && ptrs[i] in all && all[ptrs[i]] == blocks[i]
  }

  /** A list outlives any change of the map that keeps its addresses and replaces no object. */
  lemma StillListed(before: map<Ptr, Block>, after: map<Ptr, Block>, blocks: seq<Block>, ptrs: seq<Ptr>)
    requires ListedIn(before, blocks, ptrs)
    requires forall p :: p in ptrs ==> p in after
    requires forall p :: p in after && p in before ==> after[p] == before[p]
    ensures ListedIn(after, blocks, ptrs)
  {}

  class State {
    var pinnedMode: bool
    var pinOwner: Option<ThreadId>
    var captureGeneration: nat
    var freeBlocks: seq<seq<Block>> // one list per size class
    var largeBlocks: seq<Block>
    var allBlocks: map<Ptr, Block>
    var frozenBlocks: seq<Block>
    var frozenSet: set<Block>

    ghost var model: Pool // the same pool as a value

    /** The pool's block at this address is this very object. */
    ghost predicate Known(b: Block)
      reads `allBlocks
    {
      b.ptr in allBlocks && allBlocks[b.ptr] == b
    }

    ghost predicate FreeOk(free: seq<seq<Ptr>>)
      reads `allBlocks, `freeBlocks
    {
      && |freeBlocks| == |free| == |CLASS_SIZES|
      && forall c :: 0 <= c < |freeBlocks| ==> ListedIn(allBlocks, freeBlocks[c], free[c])
    }

    ghost predicate SetOk(ptrs: set<Ptr>)
      reads `allBlocks, `frozenSet
    {
      && (forall b :: b in frozenSet ==> Known(b) && b.ptr in ptrs)
      && (forall p :: p in ptrs ==> p in allBlocks && allBlocks[p] in frozenSet)
    }

    ghost predicate MapOk(all: map<Ptr, M.Block>)
      reads `allBlocks, allBlocks.Values
    {
      && allBlocks.Keys == all.Keys
      && (forall p :: p in allBlocks ==> allBlocks[p].ptr == p && allBlocks[p].View() == all[p])
      && (forall p :: p in allBlocks && allBlocks[p].kind == SizeClass ==> allBlocks[p].classIndex < |CLASS_SIZES|)
    }

    /** The fields hold exactly the pool that `model` describes. */
    ghost predicate Valid()
      reads this, allBlocks.Values
    {
      && pinnedMode == model.pinned && pinOwner == model.owner && captureGeneration == model.generation
      && FreeOk(model.free)
      && ListedIn(allBlocks, largeBlocks, model.large)
      && ListedIn(allBlocks, frozenBlocks, model.frozen)
      && SetOk(model.frozenSet)
      && MapOk(model.all)
      && allBlocks.Keys <= model.backend.live
    }

    lemma ModelIsListed()
      requires Valid()
      ensures Listed(model)
    {
      forall c, p | 0 <= c < |model.free| && p in model.free[c] ensures p in model.all {
        assert ListedIn(allBlocks, freeBlocks[c], model.free[c]);
      }
    }

    constructor ()
      ensures Valid() && model == EMPTY_POOL && allBlocks == map[]
    {
      pinnedMode, pinOwner, captureGeneration := false, None, 0;
      freeBlocks, largeBlocks, allBlocks := [[], [], [], [], [], [], [], [], [], [], []], [], map[];
      frozenBlocks, frozenSet, model := [], {}, EMPTY_POOL;
    }

    /** What the fields of a block of the pool say in the model. */
    lemma BlockInModel(b: Block)
      requires Valid() && Known(b)
      ensures b.ptr in model.all && model.all[b.ptr] == b.View()
      ensures b in frozenSet <==> b.ptr in model.frozenSet
    {}

    lemma FieldsMatch()
      requires Valid()
      ensures pinnedMode == model.pinned && pinOwner == model.owner && captureGeneration == model.generation
      ensures |freeBlocks| == |model.free| == |CLASS_SIZES|
      ensures allBlocks.Keys <= model.backend.live
      ensures allBlocks.Keys == model.all.Keys
    {}

    lemma KnownAt(p: Ptr)
      requires Valid() && p in allBlocks
      ensures allBlocks[p].ptr == p && Known(allBlocks[p])
      ensures allBlocks[p].kind == SizeClass ==> allBlocks[p].classIndex < |freeBlocks|
    {}

    lemma EmptyMatches()
      requires Valid()
      ensures frozenBlocks == [] <==> model.frozen == []
      ensures frozenSet == {} <==> model.frozenSet == {}
    {
      if model.frozenSet != {} {
        var p :| p in model.frozenSet;
        assert allBlocks[p] in frozenSet;
      }
    }

    lemma AbsentIsUnlisted(p: Ptr)
      requires Valid() && p !in allBlocks
      ensures Unlisted(model.free, model.frozen, model.frozenSet, p) && p !in model.large
    {
      forall c | 0 <= c < |model.free| ensures p !in model.free[c] {
        assert ListedIn(allBlocks, freeBlocks[c], model.free[c]);
      }
    }

    // -------------------------------------------------------------- single updates

    method SetPins(block: Block, n: nat)
      requires Valid() && Known(block)
      modifies block`pinCount, this`model
      ensures Valid()
      ensures model == old(model).(all := old(model).all[block.ptr := old(model).all[block.ptr].(pinCount := n)])
    {
      hide FreeOk, ListedIn, SetOk;
      assert forall p :: p in allBlocks && p != block.ptr ==> allBlocks[p] != block;
      block.pinCount := n;
      model := model.(all := model.all[block.ptr := model.all[block.ptr].(pinCount := n)]);
    }

    method SetOwners(block: Block, n: nat)
      requires Valid() && Known(block)
      modifies block`inUse, block`useCount, this`model
      ensures Valid()
      ensures model
        == old(model).(all := old(model).all[block.ptr := old(model).all[block.ptr].(inUse := n > 0, useCount := n)])
    {
      hide FreeOk, ListedIn, SetOk;
      assert forall p :: p in allBlocks && p != block.ptr ==> allBlocks[p] != block;
      block.inUse, block.useCount := n > 0, n;
      model := model.(all := model.all[block.ptr := model.all[block.ptr].(inUse := n > 0, useCount := n)]);
    }

    method SetUseCount(block: Block, n: nat)
      requires Valid() && Known(block)
      modifies block`useCount, this`model
      ensures Valid()
      ensures model == old(model).(all := old(model).all[block.ptr := old(model).all[block.ptr].(useCount := n)])
    {
      hide FreeOk, ListedIn, SetOk;
      assert forall p :: p in allBlocks && p != block.ptr ==> allBlocks[p] != block;
      block.useCount := n;
      model := model.(all := model.all[block.ptr := model.all[block.ptr].(useCount := n)]);
    }

    method SetGeneration(block: Block, n: nat)
      requires Valid() && Known(block)
      modifies block`generation, this`model
      ensures Valid()
      ensures model == old(model).(all := old(model).all[block.ptr := old(model).all[block.ptr].(generation := n)])
    {
      hide FreeOk, ListedIn, SetOk;
      assert forall p :: p in allBlocks && p != block.ptr ==> allBlocks[p] != block;
      block.generation := n;
      model := model.(all := model.all[block.ptr := model.all[block.ptr].(generation := n)]);
    }

    method PushFrozen(block: Block)
      requires Valid() && Known(block)
      modifies this`frozenBlocks, this`model
      ensures Valid() && model == old(model).(frozen := old(model).frozen + [block.ptr])
    {
      frozenBlocks := frozenBlocks + [block];
      model := model.(frozen := model.frozen + [block.ptr]);
    }

    method PopFrozen()
      requires Valid() && model.frozen != []
      modifies this`frozenBlocks, this`model
      ensures Valid() && |old(model).frozen| > 0
      ensures model == old(model).(frozen := old(model).frozen[..|old(model).frozen| - 1])
    {
      frozenBlocks := frozenBlocks[..|frozenBlocks| - 1];
      model := model.(frozen := model.frozen[..|model.frozen| - 1]);
    }

    method InsertFrozen(block: Block)
      requires Valid() && Known(block)
      modifies this`frozenSet, this`model
      ensures Valid() && model == old(model).(frozenSet := old(model).frozenSet + {block.ptr})
    {
      frozenSet := frozenSet + {block};
      model := model.(frozenSet := model.frozenSet + {block.ptr});
    }

    method EraseFree(c: nat, i: nat)
      requires Valid() && c < |freeBlocks| && i < |freeBlocks[c]|
      modifies this`freeBlocks, this`model
      ensures Valid() && c < |old(model).free| && i < |old(model).free[c]|
      ensures model == old(model).(free := old(model).free[c := Without(old(model).free[c], i)])
    {
      freeBlocks := freeBlocks[c := Without(freeBlocks[c], i)];
      model := model.(free := model.free[c := Without(model.free[c], i)]);
    }

    method PushFree(c: nat, block: Block)
      requires Valid() && Known(block) && c < |freeBlocks|
      modifies this`freeBlocks, this`model
      ensures Valid() && c < |old(model).free|
      ensures model == old(model).(free := old(model).free[c := old(model).free[c] + [block.ptr]])
    {
      freeBlocks := freeBlocks[c := freeBlocks[c] + [block]];
      model := model.(free := model.free[c := model.free[c] + [block.ptr]]);
    }

    lemma {:induction false} RemoveCommutes(blocks: seq<Block>, ptrs: seq<Ptr>, b: Block)
      requires ListedIn(allBlocks, blocks, ptrs) && Known(b)
      ensures ListedIn(allBlocks, Remove(blocks, b), Remove(ptrs, b.ptr))
    {
      if blocks == [] {
      } else {
        RemoveCommutes(blocks[1..], ptrs[1..], b);
      }
    }

    method RemoveFree(c: nat, block: Block)
      requires Valid() && Known(block) && c < |freeBlocks|
      modifies this`freeBlocks, this`model
      ensures Valid() && c < |old(model).free|
      ensures model == old(model).(free := old(model).free[c := Remove(old(model).free[c], block.ptr)])
    {
      RemoveCommutes(freeBlocks[c], model.free[c], block);
      freeBlocks := freeBlocks[c := Remove(freeBlocks[c], block)];
      model := model.(free := model.free[c := Remove(model.free[c], block.ptr)]);
    }

    method PushLarge(block: Block)
      requires Valid() && Known(block)
      modifies this`largeBlocks, this`model
      ensures Valid() && model == old(model).(large := old(model).large + [block.ptr])
    {
      largeBlocks := largeBlocks + [block];
      model := model.(large := model.large + [block.ptr]);
    }

    method RemoveLarge(block: Block)
      requires Valid() && Known(block)
      modifies this`largeBlocks, this`model
      ensures Valid() && model == old(model).(large := Remove(old(model).large, block.ptr))
    {
      RemoveCommutes(largeBlocks, model.large, block);
      largeBlocks := Remove(largeBlocks, block);
      model := model.(large := Remove(model.large, block.ptr));
    }

    method EraseLarge(i: nat)
      requires Valid() && i < |largeBlocks|
      modifies this`largeBlocks, this`model
      ensures Valid() && i < |old(model).large| && model == old(model).(large := Without(old(model).large, i))
    {
      largeBlocks := Without(largeBlocks, i);
      model := model.(large := Without(model.large, i));
    }

    ghost method RecordMalloc(p: Ptr)
      requires Valid()
      modifies this`model
      ensures Valid() && model == old(model).(backend := Malloc(old(model).backend, p))
    {
      model := model.(backend := Malloc(model.backend, p));
    }

    ghost method RecordFree(p: Ptr, fails: bool)
      requires Valid() && p !in allBlocks
      modifies this`model
      ensures Valid() && model == old(model).(backend := Free(old(model).backend, p, fails))
    {
      model := model.(backend := Free(model.backend, p, fails));
    }

    method Emplace(block: Block)
      requires Valid() && block.ptr !in allBlocks && block.ptr in model.backend.live
      requires block.kind == SizeClass ==> block.classIndex < |CLASS_SIZES|
      modifies this`allBlocks, this`model
      ensures Valid() && Known(block) && allBlocks == old(allBlocks)[block.ptr := block]
      ensures model == old(model).(all := old(model).all[block.ptr := block.View()])
    {
      allBlocks := allBlocks[block.ptr := block];
      model := model.(all := model.all[block.ptr := block.View()]);
      assert forall b: Block :: old(Known(b)) ==> Known(b);
    }

    /** Forgetting a block that no list names any more. */
    method EraseBlock(block: Block)
      requires Valid() && Known(block)
      requires Unlisted(model.free, model.frozen, model.frozenSet, block.ptr) && block.ptr !in model.large
      modifies this`allBlocks, this`model
      ensures Valid() && allBlocks == old(allBlocks) - {block.ptr}
      ensures model == old(model).(all := old(model).all - {block.ptr})
    {
      allBlocks := allBlocks - {block.ptr};
      model := model.(all := model.all - {block.ptr});
    }

    // -------------------------------------------------------------- pinning

    method FreezeForCapture(block: Block, self: ThreadId, faults: FreezeFaults) returns (ok: bool)
      requires Valid() && Known(block)
      modifies this`frozenBlocks, this`frozenSet, this`model, block`pinCount
      ensures Valid()
      ensures (model, ok) == Freeze(old(model), block.ptr, self, faults)
      ensures !ok ==> model == old(model)
    {
      hide FreeOk, ListedIn, SetOk, MapOk;
      BlockInModel(block);
      ok := true;
      if pinnedMode && pinOwner == Some(self) && block !in frozenSet {
        if faults.pushFails {
          return false;
        }
        PushFrozen(block);
        if faults.insertFails {
          PopFrozen();
          return false;
        }
        InsertFrozen(block);
        SetPins(block, block.pinCount + 1);
      }
    }

    // -------------------------------------------------------------- allocate

    method FindIdle(c: nat) returns (i: nat)
      requires Valid() && Listed(model) && c < |freeBlocks|
      ensures i <= |freeBlocks[c]| == |model.free[c]| && i == FirstIdle(model.all, model.free[c], 0)
      ensures i < |freeBlocks[c]| ==> Known(freeBlocks[c][i]) && freeBlocks[c][i].ptr == model.free[c][i]
    {
      assert ListedIn(allBlocks, freeBlocks[c], model.free[c]);
      i := 0;
      while i < |freeBlocks[c]| && freeBlocks[c][i].inUse
        invariant i <= |freeBlocks[c]|
        invariant FirstIdle(model.all, model.free[c], i) == FirstIdle(model.all, model.free[c], 0)
      {
        i := i + 1;
      }
    }

    method FindFit(size: nat, exact: bool) returns (i: nat)
      requires Valid() && Listed(model)
      ensures i <= |largeBlocks| == |model.large| && i == FirstFit(model.all, model.large, size, exact, 0)
      ensures i < |largeBlocks| ==> Known(largeBlocks[i]) && largeBlocks[i].ptr == model.large[i]
    {
      i := 0;
      while i < |largeBlocks|
            && !(&& !largeBlocks[i].inUse
                 && largeBlocks[i].kind == (if exact then Exact else Large)
                 && (if exact then largeBlocks[i].size == size else largeBlocks[i].size >= size))
        invariant i <= |largeBlocks|
        invariant FirstFit(model.all, model.large, size, exact, i) == FirstFit(model.all, model.large, size, exact, 0)
      {
        i := i + 1;
      }
    }

    /** Blocks that were and are in the map are the same objects. */
    ghost predicate SameObjects(before: map<Ptr, Block>)
      reads `allBlocks
    {
      forall p :: p in allBlocks && p in before ==> allBlocks[p] == before[p]
    }

    /** Reuse of a block up to the point where it is handed out. */
    method ReuseBlock(block: Block, generation: nat, self: ThreadId, faults: FreezeFaults) returns (ok: bool)
      requires Valid() && Known(block) && generation == Generation(model, self)
      modifies this`frozenBlocks, this`frozenSet, this`model, block
      ensures Valid()
      ensures (model, ok) == Reuse(old(model), self, block.ptr, faults)
    {
      hide Valid, FreeOk, ListedIn, SetOk, MapOk;
      BlockInModel(block);
      ok := FreezeForCapture(block, self, faults);
      if !ok {
        return;
      }
      ghost var frozen := model;
      SetGeneration(block, generation);
      SetOwners(block, 1);
      assert model.all == frozen.all[block.ptr := HandOut(frozen.all[block.ptr], generation)];
    }

    /** Undo of a new block that could not be completed. */
    method RollbackBlock(block: Block, freeFails: bool)
      requires Valid() && (Known(block) || block.ptr !in allBlocks)
      requires Unlisted(model.free, model.frozen, model.frozenSet, block.ptr)
      modifies this`largeBlocks, this`allBlocks, this`model
      ensures Valid()
      ensures model == Rollback(old(model), block.ptr, freeFails)
      ensures allBlocks == old(allBlocks) - {block.ptr}
    {
      hide Valid, FreeOk, ListedIn, SetOk, MapOk, Unlisted;
      FieldsMatch();
      if block.ptr in allBlocks {
        RemoveLarge(block);
        RemovesAll(old(model).large, block.ptr);
        EraseBlock(block);
      } else {
        AbsentIsUnlisted(block.ptr);
        RemoveAbsent(model.large, block.ptr);
        assert model.all - {block.ptr} == model.all;
        assert allBlocks - {block.ptr} == allBlocks;
      }
      RecordFree(block.ptr, freeFails);
    }

    method FinishBlock(block: Block, generation: nat, self: ThreadId, faults: AllocFaults)
      returns (r: Outcome<Ptr, Error>)
      requires Valid() && Known(block) && Unlisted(model.free, model.frozen, model.frozenSet, block.ptr)
      modifies this, block
      ensures Valid()
      ensures (model, r) == Finish(old(model), self, block.ptr, generation, faults)
      ensures allBlocks == if r.Ok? then old(allBlocks) else old(allBlocks) - {block.ptr}
    {
      hide Unlisted, Valid, FreeOk, ListedIn, SetOk, MapOk, Freeze, Rollback;
      var ok := FreezeForCapture(block, self, faults.freeze);
      if !ok {
        RollbackBlock(block, faults.freeFails);
        return Throw(BadAlloc);
      }
      SetGeneration(block, generation);
      return Ok(block.ptr);
    }

    method GrowWithClassBlock(c: nat, p: Ptr, generation: nat, self: ThreadId, faults: AllocFaults)
      returns (r: Outcome<Ptr, Error>)
      requires Valid() && c < |CLASS_SIZES| && p != NULL && p !in model.backend.live
      requires generation == Generation(model, self)
      modifies this
      ensures Valid()
      ensures (model, r) == GrowClass(old(model), self, c, p, faults)
      ensures SameObjects(old(allBlocks))
      ensures fresh(allBlocks.Values - old(allBlocks.Values))
    {
      hide Unlisted, Valid, FreeOk, ListedIn, SetOk, MapOk, Freeze, Rollback, Finish;
      FieldsMatch();
      AbsentIsUnlisted(p);
      var block := new Block(p, CLASS_SIZES[c], SizeClass, c);
      RecordMalloc(p);
      if faults.emplaceFails {
        RollbackBlock(block, faults.freeFails);
        return Throw(BadAlloc);
      }
      Emplace(block);
      r := FinishBlock(block, generation, self, faults);
    }

    /** Map and list the new block, or give it back. */
    method PlaceLarge(block: Block, faults: AllocFaults) returns (ok: bool)
      requires Valid() && block.ptr !in allBlocks && block.ptr in model.backend.live && block.kind != SizeClass
      requires Unlisted(model.free, model.frozen, model.frozenSet, block.ptr)
      modifies this`allBlocks, this`largeBlocks, this`model
      ensures Valid()
      ensures ok == !(faults.emplaceFails || faults.largePushFails)
      ensures ok ==> && Known(block) && allBlocks == old(allBlocks)[block.ptr := block]
                     && model == old(model).(all := old(model).all[block.ptr := block.View()],
                                             large := old(model).large + [block.ptr])
      ensures faults.emplaceFails ==> model == Rollback(old(model), block.ptr, faults.freeFails)
      ensures !ok && !faults.emplaceFails ==>
        model == Rollback(old(model).(all := old(model).all[block.ptr := block.View()]), block.ptr, faults.freeFails)
      ensures !ok ==> allBlocks == old(allBlocks)
    {
      hide Unlisted, Valid, FreeOk, ListedIn, SetOk, MapOk, Rollback;
      if faults.emplaceFails {
        RollbackBlock(block, faults.freeFails);
        return false;
      }
      Emplace(block);
      if faults.largePushFails {
        RollbackBlock(block, faults.freeFails);
        return false;
      }
      PushLarge(block);
      return true;
    }

    method GrowWithLargeBlock(size: nat, exact: bool, p: Ptr, generation: nat, self: ThreadId, faults: AllocFaults)
      returns (r: Outcome<Ptr, Error>)
      requires Valid() && p != NULL && p !in model.backend.live
      requires generation == Generation(model, self)
      modifies this
      ensures Valid()
      ensures (model, r) == GrowLarge(old(model), self, size, exact, p, faults)
      ensures SameObjects(old(allBlocks))
      ensures fresh(allBlocks.Values - old(allBlocks.Values))
    {
      hide Unlisted, Valid, FreeOk, ListedIn, SetOk, MapOk, Rollback, Finish;
      FieldsMatch();
      AbsentIsUnlisted(p);
      var block := new Block(p, size, if exact then Exact else Large, 0);
      RecordMalloc(p);
      var placed := PlaceLarge(block, faults);
      if placed {
        r := FinishBlock(block, generation, self, faults);
      } else {
        r := Throw(BadAlloc);
      }
    }

    method AllocateImpl(size: nat, exact: bool, self: ThreadId, faults: AllocFaults) returns (r: Outcome<Ptr, Error>)
      requires Valid() && Listed(model)
      requires faults.malloc.Some? ==> faults.malloc.value != NULL && faults.malloc.value !in model.backend.live
      modifies this, allBlocks.Values
      ensures Valid()
      ensures (model, r) == Allocate(old(model), self, size, exact, faults)
      ensures SameObjects(old(allBlocks))
      ensures fresh(allBlocks.Values - old(allBlocks.Values))
    {
      hide Valid, FreeOk, ListedIn, SetOk, MapOk, AllocateFromClass, AllocateLarge;
      if size == 0 {
        if exact {
          return Throw(InvalidArgument);
        }
        return Ok(NULL);
      }
      if size > SIZE_MAX - (ALIGNMENT - 1) {
        return Throw(LengthError);
      }
      FieldsMatch();
      var generation := if pinnedMode && pinOwner == Some(self) then captureGeneration else 0;
      var aligned := (size + ALIGNMENT - 1) / ALIGNMENT * ALIGNMENT;
      if !exact {
        var c := SelectClass(aligned);
        if c < |CLASS_SIZES| {
          r := AllocateInClass(c, generation, self, faults);
          return;
        }
      }
      r := AllocateLargeOrExact(aligned, exact, generation, self, faults);
    }

    /** The search loop of `allocate_impl_`. */
    method SelectClass(aligned: nat) returns (c: nat)
      ensures c == FirstClass(aligned, 0)
    {
      c := 0;
      while c < |CLASS_SIZES| && aligned > CLASS_SIZES[c]
        invariant c <= |CLASS_SIZES|
        invariant FirstClass(aligned, 0) == FirstClass(aligned, c)
      {
        c := c + 1;
      }
    }

    method AllocateLargeOrExact(aligned: nat, exact: bool, generation: nat, self: ThreadId, faults: AllocFaults)
      returns (r: Outcome<Ptr, Error>)
      requires Valid() && Listed(model) && generation == Generation(model, self)
      requires faults.malloc.Some? ==> faults.malloc.value != NULL && faults.malloc.value !in model.backend.live
      modifies this, allBlocks.Values
      ensures Valid()
      ensures (model, r) == AllocateLarge(old(model), self, aligned, exact, faults)
      ensures SameObjects(old(allBlocks))
      ensures fresh(allBlocks.Values - old(allBlocks.Values))
    {
      hide Valid, FreeOk, ListedIn, SetOk, MapOk, GrowLarge, Reuse;
      var i := FindFit(aligned, exact);
      if i < |largeBlocks| {
        var block := largeBlocks[i];
        var ok := ReuseBlock(block, generation, self, faults.freeze);
        return if ok then Ok(block.ptr) else Throw(BadAlloc);
      }
      if faults.blockFails {
        return Throw(BadAlloc);
      }
      if faults.malloc.None? {
        return Throw(BackendError);
      }
      r := GrowWithLargeBlock(aligned, exact, faults.malloc.value, generation, self, faults);
    }

    method AllocateInClass(c: nat, generation: nat, self: ThreadId, faults: AllocFaults)
      returns (r: Outcome<Ptr, Error>)
      requires Valid() && Listed(model) && c < |CLASS_SIZES| && generation == Generation(model, self)
      requires faults.malloc.Some? ==> faults.malloc.value != NULL && faults.malloc.value !in model.backend.live
      modifies this, allBlocks.Values
      ensures Valid()
      ensures (model, r) == AllocateFromClass(old(model), self, c, faults)
      ensures SameObjects(old(allBlocks))
      ensures fresh(allBlocks.Values - old(allBlocks.Values))
    {
      hide Valid, FreeOk, ListedIn, SetOk, MapOk, GrowClass;
      FieldsMatch();
      var i := FindIdle(c);
      if i < |freeBlocks[c]| {
        var block := freeBlocks[c][i];
        var ok := ReuseBlock(block, generation, self, faults.freeze);
        if !ok {
          return Throw(BadAlloc);
        }
        EraseFree(c, i);
        return Ok(block.ptr);
      }
      if faults.blockFails {
        return Throw(BadAlloc);
      }
      if faults.malloc.None? {
        return Throw(BackendError);
      }
      r := GrowWithClassBlock(c, faults.malloc.value, generation, self, faults);
    }

    // -------------------------------------------------------------- owners

    method Deallocate(p: Ptr, pushFails: bool) returns (r: Outcome<(), Error>)
      requires Valid() && Listed(model)
      modifies this`freeBlocks, this`model, allBlocks.Values
      ensures Valid()
      ensures (model, r) == M.Deallocate(old(model), p, pushFails)
    {
      hide Valid, FreeOk, ListedIn, SetOk, MapOk;
      if p == NULL {
        return Ok(());
      }
      FieldsMatch();
      if p !in allBlocks {
        return Throw(NotOwned);
      }
      KnownAt(p);
      var block := allBlocks[p];
      BlockInModel(block);
      if !block.inUse || block.useCount == 0 {
        return Throw(DoubleFree);
      }
      if block.useCount > 1 {
        SetUseCount(block, block.useCount - 1);
        return Ok(());
      }
      if block.kind == SizeClass {
        if pushFails {
          return Throw(BadAlloc);
        }
        PushFree(block.classIndex, block);
      }
      SetOwners(block, 0);
      return Ok(());
    }

    method RetainAllocation(p: Ptr) returns (r: Outcome<nat, Error>)
      requires Valid() && Listed(model)
      modifies this`freeBlocks, this`model, allBlocks.Values
      ensures Valid()
      ensures (model, r) == Retain(old(model), p)
    {
      hide Valid, FreeOk, ListedIn, SetOk, MapOk;
      FieldsMatch();
      if p !in allBlocks {
        return Throw(NotOwned);
      }
      KnownAt(p);
      var block := allBlocks[p];
      BlockInModel(block);
      if block.kind == SizeClass {
        RemoveFree(block.classIndex, block);
      }
      SetOwners(block, block.useCount + 1);
      return Ok(block.size);
    }

    // -------------------------------------------------------------- capture transactions

    method BeginPinMode(self: ThreadId) returns (r: Outcome<(), Error>)
      requires Valid()
      modifies this
      ensures Valid() && allBlocks == old(allBlocks)
      ensures (model, r) == Begin(old(model), self)
    {
      if pinnedMode {
        return Throw(AlreadyActive);
      }
      EmptyMatches();
      if frozenBlocks != [] || frozenSet != {} {
        return Throw(StaleBlocks);
      }
      if captureGeneration == GENERATION_MAX {
        return Throw(GenerationExhausted);
      }
      captureGeneration := captureGeneration + 1;
      pinnedMode := true;
      pinOwner := Some(self);
      model := model.(generation := captureGeneration, pinned := true, owner := Some(self));
      return Ok(());
    }

    /** First critical section of a commit: takes the frozen list away. */
    method DetachFrozen(self: ThreadId) returns (r: Outcome<Option<seq<Block>>, Error>)
      requires Valid()
      modifies this
      ensures Valid() && allBlocks == old(allBlocks)
      ensures var (s, q) := Detach(old(model), self);
        && model == s
        && (match r
            case Throw(e) => q == Throw(e)
            case Ok(None) => q == Ok(None)
            case Ok(Some(blocks)) => q.Ok? && q.value.Some? && ListedIn(allBlocks, blocks, q.value.value))
    {
      if !pinnedMode {
        return Ok(None);
      }
      if pinOwner != Some(self) {
        return Throw(WrongThread);
      }
      var blocks := frozenBlocks;
      pinnedMode, pinOwner := false, None;
      frozenBlocks, frozenSet := [], {};
      model := model.(pinned := false, owner := None, frozen := [], frozenSet := {});
      return Ok(Some(blocks));
    }

    /** One guarded decrement per block, whoever asks. */
    method ReleaseFrozenBlocks(blocks: seq<Block>, ghost ptrs: seq<Ptr>)
      requires Valid() && ListedIn(allBlocks, blocks, ptrs)
      modifies this`model, allBlocks.Values
      ensures Valid() && model == Release(old(model), ptrs)
    {
      hide FreeOk, SetOk, MapOk;
      for i := 0 to |blocks|
        invariant Valid() && ListedIn(allBlocks, blocks, ptrs)
        invariant model == old(model).(all := model.all)
        invariant Unpin(model.all, ptrs[i..]) == Unpin(old(model).all, ptrs)
      {
        BlockInModel(blocks[i]);
        if blocks[i].pinCount > 0 {
          SetPins(blocks[i], blocks[i].pinCount - 1);
        }
      }
    }

    method CancelPinMode(self: ThreadId) returns (r: Outcome<(), Error>)
      requires Valid()
      modifies this, allBlocks.Values
      ensures Valid() && allBlocks == old(allBlocks)
      ensures (model, r) == Cancel(old(model), self)
    {
      hide FreeOk, MapOk;
      if pinnedMode && pinOwner != Some(self) {
        return Throw(WrongThread);
      }
      ReleaseFrozenBlocks(frozenBlocks, model.frozen);
      frozenBlocks, frozenSet := [], {};
      pinnedMode, pinOwner := false, None;
      model := model.(pinned := false, owner := None, frozen := [], frozenSet := {});
      return Ok(());
    }

    method RetainForCapture(p: Ptr, self: ThreadId, faults: FreezeFaults) returns (r: Outcome<bool, Error>)
      requires Valid()
      modifies this`frozenBlocks, this`frozenSet, this`model, allBlocks.Values
      ensures Valid()
      ensures (model, r) == M.RetainForCapture(old(model), p, self, faults)
    {
      hide Valid, FreeOk, ListedIn, SetOk, MapOk;
      FieldsMatch();
      if !pinnedMode || pinOwner != Some(self) {
        return Throw(NotActive);
      }
      if p !in allBlocks {
        return Throw(NotOwned);
      }
      KnownAt(p);
      var block := allBlocks[p];
      BlockInModel(block);
      var ok := FreezeForCapture(block, self, faults);
      if !ok {
        return Throw(BadAlloc);
      }
      return Ok(block.generation != captureGeneration);
    }

    lemma BlocksInModel()
      requires Valid()
      ensures allBlocks.Keys == model.all.Keys
      ensures forall p :: p in allBlocks ==> allBlocks[p].View() == model.all[p]
    {}

    method PinnedBytes() returns (bytes: nat)
      requires Valid()
      ensures bytes == Wrap(TotalPinned(model.all))
    {
      hide Valid, FreeOk, ListedIn, SetOk, MapOk, Wrap, TotalPinned;
      BlocksInModel();
      bytes := 0;
      WrapSmall(0);
      var keys := allBlocks.Keys;
      ghost var left := model.all;
      while keys != {}
        invariant keys == left.Keys
        invariant forall p :: p in keys ==> p in allBlocks && left[p] == allBlocks[p].View()
        invariant Wrap(bytes + TotalPinned(left)) == Wrap(TotalPinned(model.all))
        invariant bytes == Wrap(bytes)
        decreases |keys|
      {
        var p :| p in keys;
        TotalPinnedSplits(left, p);
        var block := allBlocks[p];
        if block.pinCount > 0 {
          WrapStep(bytes + block.size, TotalPinned(left - {p}));
          bytes := Wrap(bytes + block.size);
        }
        left, keys := left - {p}, keys - {p};
      }
      NothingPinned(left);
    }

    // -------------------------------------------------------------- trim and destruction

    /** What is left of the map still names the same objects. */
    ghost predicate Shrunk(before: map<Ptr, Block>)
      reads `allBlocks
    {
      forall p :: p in allBlocks ==> p in before && allBlocks[p] == before[p]
    }

    /** The block at position `i` of a free list goes back to the backend and is forgotten. */
    method EvictFree(c: nat, i: nat)
      requires Valid() && Tidy(model) && c < |freeBlocks| && i < |freeBlocks[c]|
      requires freeBlocks[c][i].pinCount == 0
      modifies this`freeBlocks, this`allBlocks, this`model
      ensures Valid() && c < |old(model).free| && i < |old(model).free[c]|
      ensures model == Evicted(old(model), c, i) && Tidy(model)
      ensures Shrunk(old(allBlocks))
    {
      hide Valid, Tidy, FreeOk, ListedIn, SetOk, MapOk;
      var block := freeBlocks[c][i];
      ListedAt(c, i);
      BlockInModel(block);
      EvictTidy(model, c, i);
      EraseFree(c, i);
      EraseBlock(block);
      RecordFree(block.ptr, false);
    }

    method EvictLarge(i: nat)
      requires Valid() && Tidy(model) && i < |largeBlocks| && largeBlocks[i].pinCount == 0
      modifies this`largeBlocks, this`allBlocks, this`model
      ensures Valid() && i < |old(model).large|
      ensures model == EvictedLarge(old(model), i) && Tidy(model)
      ensures Shrunk(old(allBlocks))
    {
      hide Valid, Tidy, FreeOk, ListedIn, SetOk, MapOk;
      var block := largeBlocks[i];
      LargeListedAt(i);
      BlockInModel(block);
      EvictLargeTidy(model, i);
      EraseLarge(i);
      EraseBlock(block);
      RecordFree(block.ptr, false);
    }

    lemma LargeListedAt(i: nat)
      requires Valid() && i < |largeBlocks|
      ensures |model.large| == |largeBlocks|
      ensures largeBlocks[i].ptr == model.large[i] && Known(largeBlocks[i])
    {}

    /** A free the backend refuses changes nothing at all. */
    ghost method RecordRefusedFree(p: Ptr)
      requires Valid() && p in allBlocks
      modifies this`model
      ensures Valid() && model == old(model).(backend := Free(old(model).backend, p, true))
    {
      model := model.(backend := Free(model.backend, p, true));
    }

    /** The erasing loop over one size class. */
    method TrimClass(c: nat, failing: set<Ptr>) returns (done: bool)
      requires Valid() && Tidy(model) && c < |freeBlocks| && c < |model.free|
      modifies this`freeBlocks, this`allBlocks, this`model
      ensures Valid() && Tidy(model)
      ensures var pass := Sweep(old(model).free[c], Unpinned(old(model)), failing, old(model).backend);
        && done == pass.done
        && model == old(model).(free := old(model).free[c := pass.kept], all := old(model).all - pass.freed,
                                backend := pass.backend)
      ensures Shrunk(old(allBlocks))
    {
      hide Valid, Tidy, FreeOk, ListedIn, SetOk, MapOk, Sweep, Joins;
      ghost var s := model;
      ghost var evictable := Unpinned(s);
      ghost var pass := Sweep(s.free[c], evictable, failing, s.backend);
      ghost var freed: set<Ptr> := {};
      JoinStart(s.free[c], evictable, failing, s.backend);
      var i := 0;
      LengthsMatch(c);
      while i < |freeBlocks[c]|
        invariant Valid() && Tidy(model) && c < |model.free| == |freeBlocks| && |freeBlocks[c]| == |model.free[c]|
        invariant model == s.(free := s.free[c := model.free[c]], all := s.all - freed, backend := model.backend)
        invariant i <= |model.free[c]| && Shrunk(old(allBlocks))
        invariant Joins(pass, model.free[c], i, freed, evictable, failing, model.backend)
        decreases |model.free[c]| - i
      {
        ListedAt(c, i);
        var block := freeBlocks[c][i];
        BlockInModel(block);
        if block.pinCount == 0 {
          if block.ptr in failing {
            JoinRefused(pass, model.free[c], i, freed, evictable, failing, model.backend);
            RecordRefusedFree(block.ptr);
            return false;
          }
          JoinEvicted(pass, model.free[c], i, freed, evictable, failing, model.backend);
          EvictFree(c, i);
          freed := freed + {block.ptr};
          assert s.all - freed == model.all;
        } else {
          JoinKept(pass, model.free[c], i, freed, evictable, failing, model.backend);
          i := i + 1;
        }
        FieldsMatch();
        LengthsMatch(c);
      }
      JoinEnd(pass, model.free[c], freed, evictable, failing, model.backend);
      return true;
    }

    /** The erasing loop over the large and exact blocks. */
    method TrimLargeBlocks(failing: set<Ptr>) returns (done: bool)
      requires Valid() && Tidy(model)
      modifies this`largeBlocks, this`allBlocks, this`model
      ensures Valid() && Tidy(model)
      ensures (model, done) == TrimLarge(old(model), failing)
      ensures Shrunk(old(allBlocks))
    {
      hide Valid, Tidy, FreeOk, ListedIn, SetOk, MapOk, Sweep, Joins;
      ghost var s := model;
      ghost var evictable := Idle(s);
      ghost var pass := Sweep(s.large, evictable, failing, s.backend);
      ghost var freed: set<Ptr> := {};
      JoinStart(s.large, evictable, failing, s.backend);
      var i := 0;
      LargeLengthsMatch();
      while i < |largeBlocks|
        invariant Valid() && Tidy(model) && |largeBlocks| == |model.large|
        invariant model == s.(large := model.large, all := s.all - freed, backend := model.backend)
        invariant i <= |model.large| && Shrunk(old(allBlocks))
        invariant Joins(pass, model.large, i, freed, evictable, failing, model.backend)
        decreases |model.large| - i
      {
        LargeListedAt(i);
        var block := largeBlocks[i];
        BlockInModel(block);
        if block.pinCount == 0 && !block.inUse {
          if block.ptr in failing {
            JoinRefused(pass, model.large, i, freed, evictable, failing, model.backend);
            RecordRefusedFree(block.ptr);
            return false;
          }
          JoinEvicted(pass, model.large, i, freed, evictable, failing, model.backend);
          EvictLarge(i);
          freed := freed + {block.ptr};
          assert s.all - freed == model.all;
        } else {
          JoinKept(pass, model.large, i, freed, evictable, failing, model.backend);
          i := i + 1;
        }
        LargeLengthsMatch();
      }
      JoinEnd(pass, model.large, freed, evictable, failing, model.backend);
      return true;
    }

    method Trim(failing: set<Ptr>) returns (r: Outcome<(), Error>)
      requires Valid() && Sound(model)
      modifies this
      ensures Valid()
      ensures (model, r) == M.Trim(old(model), failing)
      ensures Shrunk(old(allBlocks))
    {
      hide Valid, Tidy, Sound, FreeOk, ListedIn, SetOk, MapOk, Sweep, TrimLarge;
      SoundIsTidy(model);
      FieldsMatch();
      var c := 0;
      while c < |freeBlocks|
        invariant Valid() && Tidy(model) && |freeBlocks| == |model.free|
        invariant c <= |model.free|
        invariant TrimClasses(model, failing, c) == TrimClasses(old(model), failing, 0)
        invariant Shrunk(old(allBlocks))
      {
        var done := TrimClass(c, failing);
        FieldsMatch();
        if !done {
          return Throw(BackendError);
        }
        c := c + 1;
      }
      var done := TrimLargeBlocks(failing);
      return if done then Ok(()) else Throw(BackendError);
    }

    /** `~State`: drains first, and frees nothing if that fails. */
    method Destruct(drained: bool, failing: set<Ptr>)
      requires Valid()
      modifies this`model
      ensures model == old(model).(backend := Destroy(old(model), drained, failing))
    {
      hide Valid, FreeOk, ListedIn, SetOk, MapOk, Free, Tidy;
      FieldsMatch();
      if !drained {
        return;
      }
      ghost var b := model.backend;
      var keys := allBlocks.Keys;
      ghost var freed: set<Ptr> := {};
      KeysAreAddresses();
      NothingFreed(b, failing);
      while keys != {}
        invariant keys <= allBlocks.Keys && freed == allBlocks.Keys - keys
        invariant model == old(model).(backend := Freed(b, freed, failing))
        decreases |keys|
      {
        var p :| p in keys;
        var block := allBlocks[p];
        OneMoreFreed(b, freed, failing, p);
        model := model.(backend := Free(model.backend, block.ptr, block.ptr in failing));
        keys := keys - {p};
        freed := freed + {p};
      }
      assert freed == old(model).all.Keys;
    }

    lemma KeysAreAddresses()
      requires Valid()
      ensures forall p :: p in allBlocks ==> allBlocks[p].ptr == p
    {}

    lemma LargeLengthsMatch()
      requires Valid()
      ensures |largeBlocks| == |model.large|
    {}

    lemma LengthsMatch(c: nat)
      requires Valid() && c < |freeBlocks|
      ensures |freeBlocks| == |model.free| && |freeBlocks[c]| == |model.free[c]|
      ensures |largeBlocks| == |model.large|
    {
      assert ListedIn(allBlocks, freeBlocks[c], model.free[c]);
    }

    lemma ListedAt(c: nat, i: nat)
      requires Valid() && c < |freeBlocks| && i < |freeBlocks[c]|
      ensures c < |model.free| && |model.free[c]| == |freeBlocks[c]|
      ensures freeBlocks[c][i].ptr == model.free[c][i] && Known(freeBlocks[c][i])
    {
      assert ListedIn(allBlocks, freeBlocks[c], model.free[c]);
    }
  }

  /** What lets a block be forgotten by removing it from one list: no two positions name the
      same block, and the frozen ones are pinned. */
  ghost predicate Tidy(s: Pool) {
    && (forall c :: 0 <= c < |s.free| ==> Distinct(s.free[c]))
    && (forall c, d, p :: 0 <= c < d < |s.free| && p in s.free[c] ==> p !in s.free[d])
    && (forall c, p :: 0 <= c < |s.free| && p in s.free[c] ==> p !in s.large)
    && Distinct(s.large)
    && (forall p :: p in s.frozen <==> p in s.frozenSet)
    && (forall p :: p in s.frozen ==> p in s.all && s.all[p].pinCount > 0)
  }

  lemma SoundIsTidy(s: Pool)
    requires Sound(s)
    ensures Tidy(s)
  {
    forall c, d, p | 0 <= c < d < |s.free| && p in s.free[c] ensures p !in s.free[d] {
      assert FreeIn(s.all, p, c) && !FreeIn(s.all, p, d);
    }
    forall c, p | 0 <= c < |s.free| && p in s.free[c] ensures p !in s.large {
      assert FreeIn(s.all, p, c) && !IsLarge(s.all, p);
    }
  }

  ghost function Evicted(s: Pool, c: nat, i: nat): Pool
    requires c < |s.free| && i < |s.free[c]|
  {
    var p := s.free[c][i];
    s.(free := s.free[c := Without(s.free[c], i)], all := s.all - {p}, backend := Free(s.backend, p, false))
  }

  ghost function EvictedLarge(s: Pool, i: nat): Pool
    requires i < |s.large|
  {
    var p := s.large[i];
    s.(large := Without(s.large, i), all := s.all - {p}, backend := Free(s.backend, p, false))
  }

  lemma EvictLargeTidy(s: Pool, i: nat)
    requires Tidy(s) && i < |s.large| && s.large[i] in s.all && s.all[s.large[i]].pinCount == 0
    ensures Tidy(EvictedLarge(s, i))
    ensures var p := s.large[i];
      && p !in Without(s.large, i) && p !in s.frozen && p !in s.frozenSet
      && forall d :: 0 <= d < |s.free| ==> p !in s.free[d]
  {
    WithoutMembers(s.large, i);
    forall d | 0 <= d < |s.free| ensures s.large[i] !in s.free[d] {
      assert s.large[i] in s.large;
    }
  }

  /** A pass is what it has kept and freed before position `i`, then the pass over the rest. */
  ghost predicate Joins(pass: Pass, list: seq<Ptr>, i: nat, freed: set<Ptr>,
                        evictable: set<Ptr>, failing: set<Ptr>, b: Backend)
    requires i <= |list|
  {
    var rest := Sweep(list[i..], evictable, failing, b);
    pass == rest.(kept := list[..i] + rest.kept, freed := freed + rest.freed)
  }

  lemma JoinStart(list: seq<Ptr>, evictable: set<Ptr>, failing: set<Ptr>, b: Backend)
    ensures Joins(Sweep(list, evictable, failing, b), list, 0, {}, evictable, failing, b)
  {
    assert list[0..] == list;
  }

  lemma JoinKept(pass: Pass, list: seq<Ptr>, i: nat, freed: set<Ptr>, evictable: set<Ptr>, failing: set<Ptr>,
                 b: Backend)
    requires i < |list| && list[i] !in evictable
    requires Joins(pass, list, i, freed, evictable, failing, b)
    ensures Joins(pass, list, i + 1, freed, evictable, failing, b)
  {
    assert list[i..][1..] == list[i + 1..];
    var rest := Sweep(list[i + 1..], evictable, failing, b);
    assert list[..i] + ([list[i]] + rest.kept) == list[..i + 1] + rest.kept;
  }

  lemma JoinEvicted(pass: Pass, list: seq<Ptr>, i: nat, freed: set<Ptr>, evictable: set<Ptr>, failing: set<Ptr>,
                    b: Backend)
    requires i < |list| && list[i] in evictable && list[i] !in failing
    requires Joins(pass, list, i, freed, evictable, failing, b)
    ensures Joins(pass, Without(list, i), i, freed + {list[i]}, evictable, failing, Free(b, list[i], false))
  {
    assert list[i..][1..] == list[i + 1..];
    assert Without(list, i)[..i] == list[..i] && Without(list, i)[i..] == list[i + 1..];
    var rest := Sweep(list[i + 1..], evictable, failing, Free(b, list[i], false));
    assert freed + (rest.freed + {list[i]}) == freed + {list[i]} + rest.freed;
  }

  lemma JoinRefused(pass: Pass, list: seq<Ptr>, i: nat, freed: set<Ptr>, evictable: set<Ptr>, failing: set<Ptr>,
                    b: Backend)
    requires i < |list| && list[i] in evictable && list[i] in failing
    requires Joins(pass, list, i, freed, evictable, failing, b)
    ensures pass == Pass(list, freed, false, Free(b, list[i], true))
  {
    assert list[..i] + list[i..] == list;
  }

  lemma JoinEnd(pass: Pass, list: seq<Ptr>, freed: set<Ptr>, evictable: set<Ptr>, failing: set<Ptr>, b: Backend)
    requires Joins(pass, list, |list|, freed, evictable, failing, b)
    ensures pass == Pass(list, freed, true, b)
  {
    assert list[..|list|] + [] == list;
    assert freed + {} == freed;
  }

  ghost function Freed(b: Backend, freed: set<Ptr>, failing: set<Ptr>): Backend {
    Backend(b.live - (freed - failing), b.misused)
  }

  lemma NothingFreed(b: Backend, failing: set<Ptr>)
    ensures Freed(b, {}, failing) == b
  {}

  lemma OneMoreFreed(b: Backend, freed: set<Ptr>, failing: set<Ptr>, p: Ptr)
    requires p in b.live && p !in freed
    ensures Free(Freed(b, freed, failing), p, p in failing) == Freed(b, freed + {p}, failing)
  {
    assert p in Freed(b, freed, failing).live;
    if p !in failing {
      assert freed + {p} - failing == freed - failing + {p};
    } else {
      assert freed + {p} - failing == freed - failing;
    }
  }

  lemma EvictTidy(s: Pool, c: nat, i: nat)
    requires Tidy(s) && c < |s.free| && i < |s.free[c]|
    requires s.free[c][i] in s.all && s.all[s.free[c][i]].pinCount == 0
    ensures Tidy(Evicted(s, c, i))
    ensures var p := s.free[c][i];
      && p !in s.large && p !in s.frozen && p !in s.frozenSet
      && forall d :: 0 <= d < |s.free| ==> p !in Evicted(s, c, i).free[d]
  {
    WithoutMembers(s.free[c], i);
  }

  // ---------------------------------------------------------------- leases

  /** Where building a lease may run out of memory. */
  datatype CommitFault = NoFault | StateAllocFails | LeaseAllocFails

  /** The pins of one committed transaction; it lives as long as its lease. */
  class PinState {
    const owner: State
    const blocks: seq<Block>
    ghost const ptrs: seq<Ptr>

    constructor (owner: State, blocks: seq<Block>, ghost ptrs: seq<Ptr>)
      ensures this.owner == owner && this.blocks == blocks && this.ptrs == ptrs
    {
      this.owner, this.blocks, this.ptrs := owner, blocks, ptrs;
    }

    /** The destructor gives back every pin. */
    method Destroy()
      requires owner.Valid() && ListedIn(owner.allBlocks, blocks, ptrs)
      modifies owner`model, owner.allBlocks.Values
      ensures owner.Valid() && owner.model == Release(old(owner.model), ptrs)
    {
      owner.ReleaseFrozenBlocks(blocks, ptrs);
    }
  }

  /** The end of a commit whose lease could not be built: each pin is released exactly once, by
      the catch block if the batch was not yet moved into the pin state, by the pin state's
      destructor otherwise, the catch block then finding an empty batch. */
  method AbandonCommit(state: State, batch: seq<Block>, ghost ptrs: seq<Ptr>, fault: CommitFault)
    requires state.Valid() && ListedIn(state.allBlocks, batch, ptrs)
    modifies state`model, state.allBlocks.Values
    ensures state.Valid() && state.model == Release(old(state.model), ptrs)
  {
    hide State.Valid, Release, ListedIn;
    if fault == LeaseAllocFails {
      var retained := new PinState(state, batch, ptrs);
      retained.Destroy();
      NothingToRelease(state);
      state.ReleaseFrozenBlocks([], []); // moved from
    } else {
      state.ReleaseFrozenBlocks(batch, ptrs);
    }
  }

  lemma NothingToRelease(state: State)
    ensures ListedIn(state.allBlocks, [], []) && Release(state.model, []) == state.model
  {}

  /** `commit_pin_mode` when no other thread steps between its two critical sections (the runs
      of `PoolMachine` take the sections apart). */
  method CommitPinMode(state: State, self: ThreadId, fault: CommitFault) returns (r: Outcome<Option<PinState>, Error>)
    requires state.Valid()
    modifies state, state.allBlocks.Values
    ensures state.Valid()
    ensures var (s, q) := Detach(old(state.model), self);
      match q
      case Throw(e) => r == Throw(e) && state.model == s
      case Ok(None) => r == Ok(None) && state.model == s
      case Ok(Some(batch)) =>
        if fault == NoFault
        then && r.Ok? && r.value.Some? && fresh(r.value.value)
             && r.value.value.owner == state && r.value.value.ptrs == batch
             && ListedIn(state.allBlocks, r.value.value.blocks, batch)
             && state.model == s
        else r == Throw(BadAlloc) && state.model == Release(s, batch)
  {
    ghost var q := Detach(state.model, self).1;
    var detached := state.DetachFrozen(self);
    if detached.Throw? {
      return Throw(detached.error);
    }
    if detached.value.None? {
      return Ok(None);
    }
    var blocks := detached.value.value;
    if fault != NoFault {
      AbandonCommit(state, blocks, q.value.value, fault);
      return Throw(BadAlloc);
    }
    var retained := new PinState(state, blocks, q.value.value);
    return Ok(Some(retained));
  }

  lemma NothingPinned(all: map<Ptr, M.Block>)
    requires all.Keys == {}
    ensures TotalPinned(all) == 0
  {}

  lemma WrapSmall(n: nat)
    requires n <= SIZE_MAX
    ensures Wrap(n) == n
  {}

  lemma WrapStep(a: nat, b: nat)
    ensures Wrap(Wrap(a) + b) == Wrap(a + b)
    ensures Wrap(Wrap(a)) == Wrap(a)
  {}

  lemma {:induction false} RemovesAll<T>(s: seq<T>, x: T)
    ensures x !in Remove(s, x)
  {
    RemoveMembers(s, x, x);
  }
}
