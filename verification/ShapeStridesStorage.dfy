/** `ShapeStridesStorage` of src/common/shape_strides_storage.h: two metadata arrays kept in
    the object, in one combined heap block, or in two adopted ones.  Nothing records which. */
module ShapeStrides {
  import opened Wrappers
  import opened HeapMemory
  import opened SmallVectors
  import opened CombinedLayout
  import opened TensorView

  const UINT32_MAX: nat := 0xFFFF_FFFF

  datatype Pointer = Pointer(block: Addr, offset: nat)

  /** The union: `InObject` is `inline_storage`, `OnHeap` is `heap_storage`. */
  datatype Union<+T> =
    | InObject(shapeCells: seq<Cell<T>>, stridesCells: seq<Cell<T>>)
    | OnHeap(allocation: Addr, shape: Pointer, strides: Pointer, shapeCapacity: nat, stridesCapacity: nat)

  datatype Meta<+T> = Meta(storage: Union<T>, shapeSize: nat, stridesSize: nat)

  predicate FitsInline<T>(m: Meta<T>, n: nat) {
    m.shapeSize <= n && m.stridesSize <= n
  }

  /** One block of the vector's kind, holding `size` values from its start. */
  ghost predicate Adopted<T>(p: Pointer, size: nat, capacity: nat, blocks: Blocks<T>) {
    && p.offset == 0 && p.block != 0 && p.block in blocks
    && !blocks[p.block].raw && |blocks[p.block].cells| == capacity && Filled(blocks[p.block].cells, size)
  }

  ghost predicate Combined<T>(m: Meta<T>, blocks: Blocks<T>) {
    && m.storage.OnHeap? && m.storage.allocation in blocks && blocks[m.storage.allocation].raw
    && m.storage.shape == Pointer(m.storage.allocation, 0)
    && m.storage.strides == Pointer(m.storage.allocation, m.shapeSize)
    && |blocks[m.storage.allocation].cells| == m.shapeSize + m.stridesSize
    && Filled(blocks[m.storage.allocation].cells, m.shapeSize + m.stridesSize)
  }

  ghost predicate Split<T>(m: Meta<T>, blocks: Blocks<T>) {
    && m.storage.OnHeap? && m.storage.shape.block != m.storage.strides.block
    && Adopted(m.storage.shape, m.shapeSize, m.storage.shapeCapacity, blocks)
    && Adopted(m.storage.strides, m.stridesSize, m.storage.stridesCapacity, blocks)
  }

  /** The sizes and the null pointer tell the active form, and that form is complete. */
  ghost predicate WellFormedMeta<T>(m: Meta<T>, n: nat, blocks: Blocks<T>) {
    && 0 < n && m.shapeSize <= UINT32_MAX && m.stridesSize <= UINT32_MAX
    && if FitsInline(m, n)
       then m.storage.InObject? && |m.storage.shapeCells| == |m.storage.stridesCells| == n
            && Filled(m.storage.shapeCells, m.shapeSize) && Filled(m.storage.stridesCells, m.stridesSize)
       else m.storage.OnHeap? && if m.storage.allocation != 0 then Combined(m, blocks) else Split(m, blocks)
  }

  function Behind<T>(p: Pointer, size: nat, blocks: Blocks<T>): (values: seq<T>)
    requires p.block in blocks && p.offset + size <= |blocks[p.block].cells|
    requires Filled(blocks[p.block].cells[p.offset..], size)
    ensures |values| == size
  {
    Values(blocks[p.block].cells[p.offset..], size)
  }

  function ShapeOf<T>(m: Meta<T>, n: nat, blocks: Blocks<T>): (values: seq<T>)
    requires WellFormedMeta(m, n, blocks)
    ensures |values| == m.shapeSize
  {
    if FitsInline(m, n) then Values(m.storage.shapeCells, m.shapeSize)
    else Behind(m.storage.shape, m.shapeSize, blocks)
  }

  function StridesOf<T>(m: Meta<T>, n: nat, blocks: Blocks<T>): (values: seq<T>)
    requires WellFormedMeta(m, n, blocks)
    ensures |values| == m.stridesSize
  {
    if FitsInline(m, n) then Values(m.storage.stridesCells, m.stridesSize)
    else Behind(m.storage.strides, m.stridesSize, blocks)
  }

  function BlocksOf<T>(m: Meta<T>, n: nat): set<Addr> {
    if FitsInline(m, n) || m.storage.InObject? then {}
    else if m.storage.allocation != 0 then {m.storage.allocation}
    else {m.storage.shape.block, m.storage.strides.block}
  }

  lemma StorageUndisturbed<T>(m: Meta<T>, n: nat, before: Blocks<T>, after: Blocks<T>)
    requires WellFormedMeta(m, n, before)
    requires forall a :: a in BlocksOf(m, n) ==> a in after && after[a] == before[a]
    ensures WellFormedMeta(m, n, after)
    ensures ShapeOf(m, n, after) == ShapeOf(m, n, before) && StridesOf(m, n, after) == StridesOf(m, n, before)
  {}

  /** `Threw`: iterating the caller's range failed.  `Aborted`: `std::abort`. */
  datatype Status = Done | BadAlloc | Threw | Aborted

  class ShapeStridesStorage {
    const memory: Memory<int>
    const n: nat // inline capacity
    const layout: Layout

    var storage: Union<int>
    var shapeSize: nat
    var stridesSize: nat

    function View(): Meta<int>
      reads this
    {
      Meta(storage, shapeSize, stridesSize)
    }

    ghost predicate Valid()
      reads this, memory
    {
      WellFormedMeta(View(), n, memory.blocks) && 0 < layout.strideAlign <= SIZE_MAX
    }

    function Shape(): seq<int>
      requires Valid()
      reads this, memory
    {
      ShapeOf(View(), n, memory.blocks)
    }

    function Strides(): seq<int>
      requires Valid()
      reads this, memory
    {
      StridesOf(View(), n, memory.blocks)
    }

    function Owned(): set<Addr>
      reads this
    {
      BlocksOf(View(), n)
    }

    predicate IsInline()
      reads this
    {
      FitsInline(View(), n)
    }

    /** Reads the heap member of the union, which `Valid` says is the active one then. */
    predicate IsCombined()
      requires Valid()
      reads this, memory
    {
      !IsInline() && storage.allocation != 0
    }

    ghost predicate Empty()
      reads this, memory
    {
      Valid() && shapeSize == stridesSize == 0
    }

    constructor (memory: Memory<int>, n: nat, layout: Layout)
      requires 0 < n && 0 < layout.strideAlign <= SIZE_MAX
      ensures Empty() && Owned() == {} && this.memory == memory && this.n == n && this.layout == layout
    {
      this.memory, this.n, this.layout := memory, n, layout;
      storage, shapeSize, stridesSize := InObject(Blank(n), Blank(n)), 0, 0;
    }

    /** `Initialize` with a writer that copies `shape` and then `strides`; `faulty` makes the
        writer throw between the two. */
    method Initialize(shape: seq<int>, strides: seq<int>, faulty: bool, at: Option<Addr>) returns (status: Status)
      requires Empty() && memory.Answers(at)
      modifies this, memory
      ensures Valid() && Footprint(old(memory.blocks), memory.blocks, {}, Owned())
      ensures status == Build(shape, strides, n, layout, faulty, at)
      ensures if status.Done? then Shape() == shape && Strides() == strides
              else Empty() && memory.blocks == old(memory.blocks)
    {
      if |shape| > UINT32_MAX || |strides| > UINT32_MAX {
        return Aborted;
      }
      if |shape| <= n && |strides| <= n {
        if faulty {
          return Threw;
        }
        InitializeInline(shape, strides);
        return Done;
      }
      status := InitializeCombined(shape, strides, faulty, at);
    }

    method InitializeInline(shape: seq<int>, strides: seq<int>)
      requires Empty() && |shape| <= n && |strides| <= n && n > 0
      requires |shape| <= UINT32_MAX && |strides| <= UINT32_MAX
      modifies this
      ensures Valid() && IsInline() && Shape() == shape && Strides() == strides && Owned() == {}
    {
      storage := InObject(Written(shape, n), Written(strides, n));
      shapeSize, stridesSize := |shape|, |strides|;
    }

    method InitializeCombined(shape: seq<int>, strides: seq<int>, faulty: bool, at: Option<Addr>)
      returns (status: Status)
      requires Empty() && memory.Answers(at) && !(|shape| <= n && |strides| <= n)
      requires |shape| <= UINT32_MAX && |strides| <= UINT32_MAX
      modifies this, memory
      ensures Valid() && Footprint(old(memory.blocks), memory.blocks, {}, Owned())
      ensures status == Build(shape, strides, n, layout, faulty, at)
      ensures if status.Done? then IsCombined() && Shape() == shape && Strides() == strides
              else Empty() && memory.blocks == old(memory.blocks)
    {
      hide Filled, CombinedBytes;
      status := AllocateCombined(shape, strides, faulty, at);
      if status.Done? {
        ActivateCombined(at.value, |shape|, |strides|);
      }
    }

    /** The block belongs to a `CombinedAllocation` until everything is written: a writer that
        throws halfway gives it back. */
    method AllocateCombined(shape: seq<int>, strides: seq<int>, faulty: bool, at: Option<Addr>) returns (status: Status)
      requires memory.Answers(at) && 0 < layout.strideAlign <= SIZE_MAX
      modifies memory
      ensures status == if CombinedBytes(|shape|, |strides|, layout).None? then Aborted
                        else if at.None? then BadAlloc else if faulty then Threw else Done
      ensures !status.Done? ==> memory.blocks == old(memory.blocks)
      ensures status.Done? ==>
        at.value in memory.blocks && memory.blocks == old(memory.blocks)[at.value := memory.blocks[at.value]]
      ensures status.Done? ==> memory.blocks[at.value].raw && HoldsInTurn(memory.blocks[at.value].cells, shape, strides)
    {
      hide Filled, CombinedBytes, Values, HoldsInTurn;
      if CombinedBytes(|shape|, |strides|, layout).None? {
        return Aborted;
      }
      var ok := memory.OperatorNew(|shape| + |strides|, at);
      if !ok {
        return BadAlloc;
      }
      memory.WriteRange(at.value, 0, shape);
      if faulty {
        memory.OperatorDelete(at.value);
        return Threw;
      }
      ghost var half := memory.blocks[at.value].cells;
      memory.WriteRange(at.value, |shape|, strides);
      WrittenInTurn(half, memory.blocks[at.value].cells, shape, strides);
      status := Done;
    }

    method ActivateCombined(block: Addr, newShapeSize: nat, newStridesSize: nat)
      requires Empty() && !(newShapeSize <= n && newStridesSize <= n)
      requires newShapeSize <= UINT32_MAX && newStridesSize <= UINT32_MAX
      requires block != 0 && block in memory.blocks && memory.blocks[block].raw
      requires |memory.blocks[block].cells| == newShapeSize + newStridesSize
      requires Filled(memory.blocks[block].cells, newShapeSize + newStridesSize)
      modifies this
      ensures Valid() && IsCombined() && Owned() == {block} && shapeSize == newShapeSize
        && stridesSize == newStridesSize
      ensures Shape() == Values(memory.blocks[block].cells, newShapeSize)
      ensures Strides() == Values(memory.blocks[block].cells[newShapeSize..], newStridesSize)
    {
      storage := OnHeap(block, Pointer(block, 0), Pointer(block, newShapeSize), 0, 0);
      shapeSize, stridesSize := newShapeSize, newStridesSize;
    }

    // ---------------------------------------------------------------- adopting vectors

    /** Two tokens become the split form; their blocks and capacities change hands as they are. */
    method ActivateSplit(shape: HeapAllocation<int>, strides: HeapAllocation<int>, newShapeSize: nat,
                         newStridesSize: nat)
      requires Empty() && !(newShapeSize <= n && newStridesSize <= n)
      requires newShapeSize <= UINT32_MAX && newStridesSize <= UINT32_MAX
      requires shape.memory == strides.memory == memory && shape.Valid() && strides.Valid()
      requires shape != strides && shape.data != 0 && strides.data != 0 && shape.data != strides.data
      requires shape.size == newShapeSize && strides.size == newStridesSize
      modifies this, shape, strides
      ensures Valid() && !IsInline() && !IsCombined() && Owned() == old(shape.Owned() + strides.Owned())
      ensures shapeSize == newShapeSize && stridesSize == newStridesSize
      ensures Shape() == Values(memory.blocks[old(shape.data)].cells, newShapeSize)
      ensures Strides() == Values(memory.blocks[old(strides.data)].cells, newStridesSize)
      ensures shape.Owned() == strides.Owned() == {}
    {
      var shapeCapacity := shape.capacity;
      var stridesCapacity := strides.capacity;
      var shapeData := shape.Release();
      var stridesData := strides.Release();
      storage := OnHeap(0, Pointer(shapeData, 0), Pointer(stridesData, 0), shapeCapacity, stridesCapacity);
      shapeSize, stridesSize := newShapeSize, newStridesSize;
    }

    /** Built from two vectors the caller gives away.  Heap blocks are adopted only when both
        vectors have one and the result is too long for the object; otherwise the vectors keep
        what they have. */
    method InitializeOwned(shape: SmallVector<int>, strides: SmallVector<int>, at: Option<Addr>)
      returns (status: Status)
      requires Empty() && memory.Answers(at) && Givable(shape) && Givable(strides)
      requires shape != strides && shape.Owned() !! strides.Owned()
      modifies this, shape, strides, memory
      ensures Valid() && shape.Valid() && strides.Valid()
      ensures status == BuildOwned(old(shape.View()), old(strides.View()),
                                   old(shape.Contents()), old(strides.Contents()), n, layout, at)
      ensures status.Done? ==> Shape() == old(shape.Contents()) && Strides() == old(strides.Contents())
      ensures if Adopts(old(shape.View()), old(strides.View()), n) && status.Done?
              then memory.blocks == old(memory.blocks) && Owned() == old(shape.Owned() + strides.Owned())
                   && !shape.IsHeap() && !strides.IsHeap() && shape.Contents() == strides.Contents() == []
              else shape.View() == old(shape.View()) && strides.View() == old(strides.View())
                   && Footprint(old(memory.blocks), memory.blocks, {}, Owned())
      ensures !status.Done? ==> Empty() && Owned() == {} && memory.blocks == old(memory.blocks)
    {
      if shape.size <= n && strides.size <= n {
        status := InitializeFrom(shape, strides, at);
        return;
      }
      if shape.capacity > n && strides.capacity > n {
        status := Adopt(shape, strides);
        return;
      }
      status := InitializeFrom(shape, strides, at);
    }

    method Adopt(shape: SmallVector<int>, strides: SmallVector<int>) returns (status: Status)
      requires Empty() && Givable(shape) && Givable(strides) && Adopts(shape.View(), strides.View(), n)
      requires shape != strides && shape.Owned() !! strides.Owned()
      modifies this, shape, strides
      ensures Valid() && shape.Valid() && strides.Valid()
      ensures status == if old(shape.size) > UINT32_MAX || old(strides.size) > UINT32_MAX then Aborted else Done
      ensures if status.Done?
              then Shape() == old(shape.Contents()) && Strides() == old(strides.Contents())
                   && Owned() == old(shape.Owned() + strides.Owned())
                   && !shape.IsHeap() && !strides.IsHeap() && shape.Contents() == strides.Contents() == []
              else Empty() && shape.View() == old(shape.View()) && strides.View() == old(strides.View())
    {
      hide Elements, Filled, Values, ShapeOf, StridesOf;
      if shape.size > UINT32_MAX || strides.size > UINT32_MAX {
        return Aborted;
      }
      var newShapeSize, newStridesSize := shape.size, strides.size;
      var shapeAllocation := shape.ReleaseHeap();
      var stridesAllocation := strides.ReleaseHeap();
      ActivateSplit(shapeAllocation, stridesAllocation, newShapeSize, newStridesSize);
      status := Done;
    }

    ghost predicate Givable(v: SmallVector<int>)
      reads this, v, v.memory
    {
      v.memory == memory && v.n == n && v.Valid()
    }

    /** `InitializeRanges` over two vectors that stay as they are. */
    method InitializeFrom(shape: SmallVector<int>, strides: SmallVector<int>, at: Option<Addr>) returns (status: Status)
      requires Empty() && memory.Answers(at) && Givable(shape) && Givable(strides)
      modifies this, memory
      ensures Valid() && shape.Valid() && strides.Valid()
      ensures status == Build(old(shape.Contents()), old(strides.Contents()), n, layout, false, at)
      ensures shape.Contents() == old(shape.Contents()) && strides.Contents() == old(strides.Contents())
      ensures if status.Done? then Shape() == shape.Contents() && Strides() == strides.Contents()
              else Empty() && Owned() == {} && memory.blocks == old(memory.blocks)
      ensures Footprint(old(memory.blocks), memory.blocks, {}, Owned())
      ensures Owned() !! shape.Owned() && Owned() !! strides.Owned()
    {
      hide Elements, ShapeOf, StridesOf, Build;
      status := Initialize(shape.Contents(), strides.Contents(), false, at);
      Undisturbed(shape.View(), n, old(memory.blocks), memory.blocks);
      Undisturbed(strides.View(), n, old(memory.blocks), memory.blocks);
    }

    /** A vector to give away and one to copy.  When the first has a block to adopt and both are
        too long for the object, the second is copied into a vector of its own first; the
        allocator answers `at` to whichever allocation comes. */
    method InitializeMixedShape(shape: SmallVector<int>, strides: SmallVector<int>, at: Option<Addr>)
      returns (status: Status)
      requires Empty() && Givable(shape) && Givable(strides) && shape != strides && shape.Owned() !! strides.Owned()
      requires memory.Grants(strides.capacity, at)
      modifies this, shape, memory
      ensures status == BuildMixed(old(shape.View()), old(strides.View()),
                                   old(shape.Contents()), old(strides.Contents()), n, layout, at)
      ensures !status.Aborted? ==>
        && Valid() && shape.Valid() && strides.Valid() && strides.Contents() == old(strides.Contents())
        && Footprint(old(memory.blocks), memory.blocks, old(shape.Owned()), Owned() + shape.Owned())
        && Owned() !! shape.Owned()
      ensures status.Done? ==> Shape() == old(shape.Contents()) && Strides() == old(strides.Contents())
      ensures status.Done? ==>
        if old(shape.size) > n && old(strides.size) > n && old(shape.capacity) > n
        then old(shape.Owned()) <= Owned() && shape.Valid() && shape.Contents() == []
        else shape.View() == old(shape.View())
      ensures status.BadAlloc? ==> Empty() && memory.blocks == old(memory.blocks) && shape.View() == old(shape.View())
    {
      hide Elements, ShapeOf, StridesOf, Build;
      if shape.size > n && strides.size > n && shape.capacity > n {
        status := AdoptShape(shape, strides, at);
        return;
      }
      status := InitializeFrom(shape, strides, at);
    }

    method AdoptShape(shape: SmallVector<int>, strides: SmallVector<int>, at: Option<Addr>) returns (status: Status)
      requires Empty() && Givable(shape) && Givable(strides) && shape != strides && shape.Owned() !! strides.Owned()
      requires memory.Grants(strides.capacity, at) && shape.size > n && strides.size > n && shape.capacity > n
      modifies this, shape, memory
      ensures status == BuildMixed(old(shape.View()), old(strides.View()),
                                   old(shape.Contents()), old(strides.Contents()), n, layout, at)
      ensures !status.Aborted? ==>
        && Valid() && shape.Valid() && strides.Valid() && strides.Contents() == old(strides.Contents())
        && Footprint(old(memory.blocks), memory.blocks, old(shape.Owned()), Owned() + shape.Owned())
        && Owned() !! shape.Owned()
      ensures status.Done? ==> Shape() == old(shape.Contents()) && Strides() == old(strides.Contents())
      ensures status.Done? ==> old(shape.Owned()) <= Owned() && shape.Valid() && shape.Contents() == []
      ensures status.BadAlloc? ==> Empty() && memory.blocks == old(memory.blocks) && shape.View() == old(shape.View())
    {
      hide Elements, ShapeOf, StridesOf, Build, BuildOwned, Filled, Footprint, WellFormedMeta;
      var own, ok := CopyOf(strides, at);
      if !ok {
        KeepsBlocks(memory.blocks, shape.Owned());
        assert Owned() + shape.Owned() == shape.Owned();
        return BadAlloc;
      }
      Untouched(old(memory.blocks), memory.blocks, own.Owned(), shape.Owned());
      Undisturbed(shape.View(), n, old(memory.blocks), memory.blocks);
      StorageUndisturbed(View(), n, old(memory.blocks), memory.blocks);
      ghost var mid, taken, gave := memory.blocks, own.Owned(), shape.Owned();
      status := InitializeAdopted(shape, own);
      if status.Aborted? {
        return;
      }
      own.Destroy();
      assert memory.blocks == mid && Owned() + shape.Owned() == gave + taken;
      Untouched(old(memory.blocks), mid, taken, strides.Owned());
      Undisturbed(strides.View(), n, old(memory.blocks), memory.blocks);
      TakesOver(old(memory.blocks), mid, taken, gave);
    }

    /** `InitializeOwned` on two vectors that both have a block to adopt. */
    method InitializeAdopted(shape: SmallVector<int>, strides: SmallVector<int>) returns (status: Status)
      requires Empty() && Givable(shape) && Givable(strides) && Adopts(shape.View(), strides.View(), n)
      requires shape != strides && shape.Owned() !! strides.Owned()
      modifies this, shape, strides, memory
      ensures status == if old(shape.size) > UINT32_MAX || old(strides.size) > UINT32_MAX then Aborted else Done
      ensures status.Done? ==>
        && Valid() && Shape() == old(shape.Contents()) && Strides() == old(strides.Contents())
        && memory.blocks == old(memory.blocks) && Owned() == old(shape.Owned() + strides.Owned())
        && shape.Valid() && shape.Owned() == {} && strides.Valid() && strides.Owned() == {}
        && shape.Contents() == strides.Contents() == []
    {
      hide Elements, ShapeOf, StridesOf, Build, Filled, Footprint;
      status := InitializeOwned(shape, strides, None);
    }

    /** `Strides owned{strides};` and its counterpart. */
    method CopyOf(v: SmallVector<int>, at: Option<Addr>) returns (own: SmallVector<int>, ok: bool)
      requires Givable(v) && v.IsHeap() && memory.Grants(v.capacity, at)
      modifies memory
      ensures fresh(own) && Givable(own) && v.Valid() && v.Contents() == old(v.Contents())
      ensures ok == at.Some?
      ensures if ok then own.Contents() == v.Contents() && own.IsHeap()
              else memory.blocks == old(memory.blocks)
      ensures Footprint(old(memory.blocks), memory.blocks, {}, own.Owned())
    {
      own := new SmallVector(memory, n, v.zero);
      ok := own.CopyConstructFrom(v, at);
    }

    /** The other way round: the strides are given away, the shape is copied. */
    method InitializeMixedStrides(shape: SmallVector<int>, strides: SmallVector<int>, at: Option<Addr>)
      returns (status: Status)
      requires Empty() && Givable(shape) && Givable(strides) && shape != strides && shape.Owned() !! strides.Owned()
      requires memory.Grants(shape.capacity, at)
      modifies this, strides, memory
      ensures status == BuildMixed(old(strides.View()), old(shape.View()),
                                   old(shape.Contents()), old(strides.Contents()), n, layout, at)
      ensures !status.Aborted? ==>
        && Valid() && shape.Valid() && strides.Valid() && shape.Contents() == old(shape.Contents())
        && Footprint(old(memory.blocks), memory.blocks, old(strides.Owned()), Owned() + strides.Owned())
        && Owned() !! strides.Owned()
      ensures status.Done? ==> Shape() == old(shape.Contents()) && Strides() == old(strides.Contents())
      ensures status.Done? ==>
        if old(shape.size) > n && old(strides.size) > n && old(strides.capacity) > n
        then old(strides.Owned()) <= Owned() && strides.Valid() && strides.Contents() == []
        else strides.View() == old(strides.View())
      ensures status.BadAlloc? ==>
        Empty() && memory.blocks == old(memory.blocks) && strides.View() == old(strides.View())
    {
      hide Elements, ShapeOf, StridesOf, Build;
      if shape.size > n && strides.size > n && strides.capacity > n {
        status := AdoptStrides(shape, strides, at);
        return;
      }
      status := InitializeFrom(shape, strides, at);
    }

    method AdoptStrides(shape: SmallVector<int>, strides: SmallVector<int>, at: Option<Addr>) returns (status: Status)
      requires Empty() && Givable(shape) && Givable(strides) && shape != strides && shape.Owned() !! strides.Owned()
      requires memory.Grants(shape.capacity, at) && shape.size > n && strides.size > n && strides.capacity > n
      modifies this, strides, memory
      ensures status == BuildMixed(old(strides.View()), old(shape.View()),
                                   old(shape.Contents()), old(strides.Contents()), n, layout, at)
      ensures !status.Aborted? ==>
        && Valid() && shape.Valid() && strides.Valid() && shape.Contents() == old(shape.Contents())
        && Footprint(old(memory.blocks), memory.blocks, old(strides.Owned()), Owned() + strides.Owned())
        && Owned() !! strides.Owned()
      ensures status.Done? ==> Shape() == old(shape.Contents()) && Strides() == old(strides.Contents())
      ensures status.Done? ==> old(strides.Owned()) <= Owned() && strides.Valid() && strides.Contents() == []
      ensures status.BadAlloc? ==>
        Empty() && memory.blocks == old(memory.blocks) && strides.View() == old(strides.View())
    {
      hide Elements, ShapeOf, StridesOf, Build, BuildOwned, Filled, Footprint, WellFormedMeta;
      var own, ok := CopyOf(shape, at);
      if !ok {
        KeepsBlocks(memory.blocks, strides.Owned());
        assert Owned() + strides.Owned() == strides.Owned();
        return BadAlloc;
      }
      Untouched(old(memory.blocks), memory.blocks, own.Owned(), strides.Owned());
      Undisturbed(strides.View(), n, old(memory.blocks), memory.blocks);
      StorageUndisturbed(View(), n, old(memory.blocks), memory.blocks);
      ghost var mid, taken, gave := memory.blocks, own.Owned(), strides.Owned();
      status := InitializeAdopted(own, strides);
      if status.Aborted? {
        return;
      }
      own.Destroy();
      assert memory.blocks == mid && Owned() + strides.Owned() == gave + taken;
      Untouched(old(memory.blocks), mid, taken, shape.Owned());
      Undisturbed(shape.View(), n, old(memory.blocks), memory.blocks);
      TakesOver(old(memory.blocks), mid, taken, gave);
    }

    // ---------------------------------------------------------------- default strides

    /** From any range of extents. */
    method InitializeDefaultStrides(shape: seq<nat>, at: Option<Addr>) returns (status: Status)
      requires Empty() && memory.Answers(at)
      modifies this, memory
      ensures Valid() && Footprint(old(memory.blocks), memory.blocks, {}, Owned())
      ensures status == Build(shape, DefaultStrides(shape), n, layout, false, at)
      ensures if status.Done? then Shape() == shape && Strides() == DefaultStrides(shape)
              else Empty() && memory.blocks == old(memory.blocks)
    {
      var strides := FilledStrides(shape);
      status := Initialize(shape, strides, false, at);
    }

    /** From a vector the caller gives away: its block is kept, and the strides are computed in
        a new vector of the same length. */
    method InitializeDefaultStridesOwned(shape: SmallVector<int>, ghost extents: seq<nat>, at: Option<Addr>)
      returns (status: Status)
      requires Empty() && Givable(shape) && memory.Grants(shape.size, at)
      requires shape.Contents() == extents // unsigned numbers
      modifies this, shape, memory
      ensures status == if |extents| <= n || old(shape.capacity) <= n
                        then Build(extents, DefaultStrides(extents), n, layout, false, at)
                        else if at.None? then BadAlloc else if |extents| > UINT32_MAX then Aborted else Done
      ensures !status.Aborted? ==>
        && Valid() && shape.Valid()
        && Footprint(old(memory.blocks), memory.blocks, old(shape.Owned()), Owned() + shape.Owned())
        && Owned() !! shape.Owned()
      ensures status.Done? ==> Shape() == extents && Strides() == DefaultStrides(extents)
      ensures status.Done? ==>
        if |extents| > n && old(shape.capacity) > n
        then old(shape.Owned()) <= Owned() && shape.Valid() && shape.Contents() == []
        else shape.View() == old(shape.View())
      ensures status.BadAlloc? ==> Empty() && memory.blocks == old(memory.blocks) && shape.View() == old(shape.View())
    {
      hide ShapeOf, StridesOf, Elements, DefaultStrides, Filled, Footprint, WellFormedMeta, Build;
      var sizes: seq<nat> := shape.Contents();
      ghost var gave := shape.Owned();
      if shape.size <= n || shape.capacity <= n {
        status := InitializeDefaultStrides(sizes, at);
        Untouched(old(memory.blocks), memory.blocks, Owned(), gave);
        Undisturbed(shape.View(), n, old(memory.blocks), memory.blocks);
        TakesOver(old(memory.blocks), memory.blocks, Owned(), gave);
        assert Owned() + shape.Owned() == gave + Owned();
        return;
      }
      status := AdoptWithDefaults(shape, sizes, at);
    }

    method AdoptWithDefaults(shape: SmallVector<int>, sizes: seq<nat>, at: Option<Addr>) returns (status: Status)
      requires Empty() && Givable(shape) && memory.Grants(shape.size, at)
      requires shape.Contents() == sizes && shape.size > n && shape.capacity > n
      modifies this, shape, memory
      ensures status == if at.None? then BadAlloc else if |sizes| > UINT32_MAX then Aborted else Done
      ensures !status.Aborted? ==>
        && Valid() && shape.Valid()
        && Footprint(old(memory.blocks), memory.blocks, old(shape.Owned()), Owned() + shape.Owned())
        && Owned() !! shape.Owned()
      ensures status.Done? ==> Shape() == sizes && Strides() == DefaultStrides(sizes)
      ensures status.Done? ==> old(shape.Owned()) <= Owned() && shape.Valid() && shape.Contents() == []
      ensures status.BadAlloc? ==> Empty() && memory.blocks == old(memory.blocks) && shape.View() == old(shape.View())
    {
      hide ShapeOf, StridesOf, Elements, DefaultStrides, Filled, Footprint, WellFormedMeta;
      var strides, ok := StridesVector(sizes, at);
      if !ok {
        KeepsBlocks(memory.blocks, shape.Owned());
        assert Owned() + shape.Owned() == shape.Owned();
        return BadAlloc;
      }
      Untouched(old(memory.blocks), memory.blocks, strides.Owned(), shape.Owned());
      Undisturbed(shape.View(), n, old(memory.blocks), memory.blocks);
      StorageUndisturbed(View(), n, old(memory.blocks), memory.blocks);
      ghost var mid, taken, gave := memory.blocks, strides.Owned(), shape.Owned();
      status := InitializeAdopted(shape, strides);
      if status.Aborted? {
        return;
      }
      strides.Destroy();
      assert memory.blocks == mid && Owned() + shape.Owned() == gave + taken;
      TakesOver(old(memory.blocks), mid, taken, gave);
    }

    /** `Strides strides(shape.size())`, filled through `strides.data()`. */
    method StridesVector(shape: seq<nat>, at: Option<Addr>) returns (strides: SmallVector<int>, ok: bool)
      requires Empty() && n < |shape| && n < memory.maxSize && memory.Grants(|shape|, at)
      modifies memory
      ensures fresh(strides) && Givable(strides)
      ensures ok == at.Some?
      ensures if ok then strides.Contents() == DefaultStrides(shape) && strides.IsHeap()
              else memory.blocks == old(memory.blocks)
      ensures Footprint(old(memory.blocks), memory.blocks, {}, strides.Owned())
    {
      strides := new SmallVector(memory, n, 0);
      ok := strides.InitializeCount(|shape|, at);
      if ok {
        var values := FilledStrides(shape);
        strides.Overwrite(values);
      }
    }

    // ---------------------------------------------------------------- copies, moves, release

    /** A copy always gets storage of its own. */
    method CopyConstructFrom(other: ShapeStridesStorage, at: Option<Addr>) returns (status: Status)
      requires Empty() && memory.Answers(at) && other != this && other.memory == memory && other.n == n && other.Valid()
      modifies this, memory
      ensures Valid() && other.Valid() && Owned() !! other.Owned()
      ensures other.Shape() == old(other.Shape()) && other.Strides() == old(other.Strides())
      ensures status == Build(other.Shape(), other.Strides(), n, layout, false, at)
      ensures if status.Done? then Shape() == other.Shape() && Strides() == other.Strides()
              else Empty() && Owned() == {} && memory.blocks == old(memory.blocks)
      ensures Footprint(old(memory.blocks), memory.blocks, {}, Owned())
    {
      hide ShapeOf, StridesOf, Build;
      status := Initialize(other.Shape(), other.Strides(), false, at);
      StorageUndisturbed(other.View(), n, old(memory.blocks), memory.blocks);
    }

    /** A move never allocates and leaves the source empty and inline. */
    method MoveConstructFrom(other: ShapeStridesStorage)
      requires Empty() && other != this && other.memory == memory && other.n == n && other.Valid()
      modifies this, other
      ensures Valid() && Shape() == old(other.Shape()) && Strides() == old(other.Strides())
      ensures Owned() == old(other.Owned())
      ensures other.Empty() && other.IsInline() && other.Owned() == {}
    {
      if other.IsInline() {
        InitializeInline(other.Shape(), other.Strides());
        other.shapeSize, other.stridesSize := 0, 0;
        return;
      }
      storage := other.storage;
      shapeSize, stridesSize := other.shapeSize, other.stridesSize;
      other.storage := InObject(Blank(n), Blank(n));
      other.shapeSize, other.stridesSize := 0, 0;
    }

    /** `~ShapeStridesStorage`: every block goes back the way it came, with its capacity. */
    method ReleaseStorage()
      requires Valid()
      modifies memory
      ensures memory.blocks == old(memory.blocks) - Owned()
    {
      if IsInline() {
        return;
      }
      if IsCombined() {
        memory.OperatorDelete(storage.allocation);
        return;
      }
      memory.Deallocate(storage.shape.block, storage.shapeCapacity);
      memory.Deallocate(storage.strides.block, storage.stridesCapacity);
    }
  }

  /** When blocks change hands. */
  predicate Adopts<T>(shape: Vec<T>, strides: Vec<T>, n: nat) {
    && shape.capacity > n && strides.capacity > n
    && !(shape.size <= n && strides.size <= n)
  }

  function BuildMixed(given: Vec<int>, copied: Vec<int>, shapeValues: seq<int>, stridesValues: seq<int>,
                      n: nat, layout: Layout, at: Option<Addr>): Status
    requires 0 < layout.strideAlign <= SIZE_MAX
  {
    if given.size > n && copied.size > n && given.capacity > n
    then if at.None? then BadAlloc
         else if |shapeValues| > UINT32_MAX || |stridesValues| > UINT32_MAX then Aborted else Done
    else Build(shapeValues, stridesValues, n, layout, false, at)
  }

  function BuildOwned(shape: Vec<int>, strides: Vec<int>, shapeValues: seq<int>, stridesValues: seq<int>,
                      n: nat, layout: Layout, at: Option<Addr>): Status
    requires 0 < layout.strideAlign <= SIZE_MAX
  {
    if Adopts(shape, strides, n)
    then if |shapeValues| > UINT32_MAX || |stridesValues| > UINT32_MAX then Aborted else Done
    else Build(shapeValues, stridesValues, n, layout, false, at)
  }

  method FilledStrides(shape: seq<nat>) returns (strides: seq<int>)
    ensures strides == DefaultStrides(shape)
  {
    var extents := new nat[|shape|](i requires 0 <= i < |shape| => shape[i]);
    var filled := new int[|shape|];
    FillDefaultStrides(extents, filled);
    assert extents[..] == shape;
    strides := filled[..];
  }

  /** Writing `values` over the first of `n` uninitialised cells. */
  function Written(values: seq<int>, n: nat): (cells: seq<Cell<int>>)
    requires |values| <= n
    ensures |cells| == n && Filled(cells, |values|) && Values(cells, |values|) == values
  {
    if values == [] then Blank(n)
    else Written(values[..|values| - 1], n)[|values| - 1 := Val(values[|values| - 1])]
  }

  ghost predicate HoldsInTurn(cells: seq<Cell<int>>, first: seq<int>, second: seq<int>) {
    && |cells| == |first| + |second| && Filled(cells, |cells|)
    && Filled(cells, |first|) && Values(cells, |first|) == first
    && Filled(cells[|first|..], |second|) && Values(cells[|first|..], |second|) == second
  }

  lemma WrittenInTurn(half: seq<Cell<int>>, cells: seq<Cell<int>>, first: seq<int>, second: seq<int>)
    requires |half| == |cells| == |first| + |second| && forall j :: 0 <= j < |first| ==> cells[j] == half[j]
    requires forall j :: 0 <= j < |first| ==> half[j] == Val(first[j])
    requires forall j :: |first| <= j < |cells| ==> cells[j] == Val(second[j - |first|])
    ensures HoldsInTurn(cells, first, second)
  {
    hide Values;
    ValuesAre(cells, first);
    var rest := cells[|first|..];
    assert forall j :: 0 <= j < |second| ==> rest[j] == cells[|first| + j];
    ValuesAre(rest, second);
  }

  /** How building the storage ends. */
  function Build(shape: seq<int>, strides: seq<int>, n: nat, layout: Layout, faulty: bool, at: Option<Addr>): Status
    requires 0 < layout.strideAlign <= SIZE_MAX
  {
    if |shape| > UINT32_MAX || |strides| > UINT32_MAX then Aborted
    else if |shape| <= n && |strides| <= n then if faulty then Threw else Done
    else if CombinedBytes(|shape|, |strides|, layout).None? then Aborted
    else if at.None? then BadAlloc
    else if faulty then Threw else Done
  }

  /** When construction from given arrays succeeds, and how it fails: it aborts for a length that
      does not fit 32 bits or a block whose byte count does not fit a word, and needs memory only
      when the arrays do not fit the object. */
  lemma BuildAnswers(shape: seq<int>, strides: seq<int>, n: nat, layout: Layout, faulty: bool, at: Option<Addr>)
    requires 0 < layout.strideAlign <= SIZE_MAX
    ensures var inObject := |shape| <= n && |strides| <= n;
      var bytes := |shape| * layout.sizeBytes + (layout.strideAlign - 1) + |strides| * layout.strideBytes;
      var aborts := |shape| >= 0x1_0000_0000 || |strides| >= 0x1_0000_0000 || (!inObject && bytes > SIZE_MAX);
      var status := Build(shape, strides, n, layout, faulty, at);
      && (status.Aborted? <==> aborts)
      && (status.BadAlloc? <==> !aborts && !inObject && at.None?)
      && (status.Threw? <==> !aborts && (inObject || at.Some?) && faulty)
      && (status.Done? <==> !aborts && (inObject || at.Some?) && !faulty)
  {
    hide CombinedBytes;
    CombinedBytesExactly(|shape|, |strides|, layout);
  }

  /** Blocks that are adopted cost no memory: then only the lengths matter. */
  lemma AdoptionAnswers(shape: Vec<int>, strides: Vec<int>, shapeValues: seq<int>, stridesValues: seq<int>,
                        n: nat, layout: Layout, at: Option<Addr>)
    requires 0 < layout.strideAlign <= SIZE_MAX
    requires shape.capacity > n && strides.capacity > n && (shape.size > n || strides.size > n)
    ensures var status := BuildOwned(shape, strides, shapeValues, stridesValues, n, layout, at);
      && (status.Done? <==> |shapeValues| < 0x1_0000_0000 && |stridesValues| < 0x1_0000_0000)
      && (status.Aborted? <==> !status.Done?)
  {}
}
