/** `SmallVector` of src/common/small_vector.h: elements live in the object or in one heap
    block, and the capacity alone tells which. */
module SmallVectors {
  import opened Wrappers
  import opened HeapMemory

  /** The union: which member is active is not stored. */
  datatype Storage<+T> = Inline(cells: seq<Cell<T>>) | Heap(data: Addr)

  datatype Vec<+T> = Vec(storage: Storage<T>, size: nat, capacity: nat)

  /** The capacity tells the active member, and that member has room for it. */
  ghost predicate Tagged<T>(v: Vec<T>, n: nat, blocks: Blocks<T>) {
    && 0 < n && v.size <= v.capacity
    && if v.capacity > n
       then v.storage.Heap? && v.storage.data in blocks && v.storage.data != 0
            && !blocks[v.storage.data].raw && |blocks[v.storage.data].cells| == v.capacity
       else v.storage.Inline? && |v.storage.cells| == n == v.capacity
  }

  function Cells<T>(v: Vec<T>, n: nat, blocks: Blocks<T>): seq<Cell<T>>
    requires Tagged(v, n, blocks)
  {
    if v.capacity > n then blocks[v.storage.data].cells else v.storage.cells
  }

  ghost predicate WellFormed<T>(v: Vec<T>, n: nat, blocks: Blocks<T>) {
    Tagged(v, n, blocks) && Filled(Cells(v, n, blocks), v.size)
  }

  function Elements<T>(v: Vec<T>, n: nat, blocks: Blocks<T>): (elements: seq<T>)
    requires WellFormed(v, n, blocks)
    ensures |elements| == v.size
  {
    Values(Cells(v, n, blocks), v.size)
  }

  function OwnedBy<T>(v: Vec<T>, n: nat): set<Addr> {
    if v.capacity > n && v.storage.Heap? then {v.storage.data} else {}
  }

  /** A vector does not notice what happens to blocks it does not own. */
  lemma Undisturbed<T>(v: Vec<T>, n: nat, before: Blocks<T>, after: Blocks<T>)
    requires WellFormed(v, n, before)
    requires forall a :: a in OwnedBy(v, n) ==> a in after && after[a] == before[a]
    ensures WellFormed(v, n, after) && Elements(v, n, after) == Elements(v, n, before)
  {}

  /** The capacity after growing a full vector (src/common/small_vector.h:528-537). */
  function Grown(capacity: nat, maxSize: nat): nat
    requires capacity <= maxSize
  {
    var half := capacity / 2;
    var increment := if half == 0 then 1 else half;
    if increment > maxSize - capacity then maxSize else capacity + increment
  }

  /** Growth makes room exactly when the allocator's limit is not reached yet, and it makes half as
      much again, rounded down, up to that limit. */
  lemma GrowthMakesRoom(capacity: nat, maxSize: nat)
    requires capacity <= maxSize
    ensures capacity <= Grown(capacity, maxSize) <= maxSize
    ensures Grown(capacity, maxSize) > capacity <==> capacity < maxSize
    ensures 2 * Grown(capacity, maxSize) <= 3 * capacity || Grown(capacity, maxSize) <= capacity + 1
    ensures 2 * Grown(capacity, maxSize) >= 3 * capacity - 1 || Grown(capacity, maxSize) == maxSize
  {}

  /** The numbers that matter for the cost of appending. */
  datatype Growth = Growth(size: nat, capacity: nat, copied: nat)

  /** One `push_back`: a full vector first moves all it has. */
  function Pushed(g: Growth, maxSize: nat): Growth
    requires g.size <= g.capacity <= maxSize
  {
    if g.size < g.capacity then g.(size := g.size + 1)
    else Growth(g.size + 1, Grown(g.capacity, maxSize), g.copied + g.size)
  }

  /** `count` appends to an empty inline vector. */
  function PushedTimes(n: nat, count: nat, maxSize: nat): (g: Growth)
    requires n <= maxSize && count <= maxSize
    ensures g.size == count && g.size <= g.capacity <= maxSize
    decreases count
  {
    if count == 0 then Growth(0, n, 0) else Pushed(PushedTimes(n, count - 1, maxSize), maxSize)
  }

  /** How often `count` appends to an empty inline vector grow it. */
  function Growths(n: nat, count: nat, maxSize: nat): nat
    requires n <= maxSize && count <= maxSize
    decreases count
  {
    if count == 0 then 0
    else
      var g := PushedTimes(n, count - 1, maxSize);
      Growths(n, count - 1, maxSize) + if g.size == g.capacity then 1 else 0
  }

  lemma {:induction false} GrowthsMonotone(n: nat, i: nat, j: nat, maxSize: nat)
    requires n <= maxSize && i <= j <= maxSize
    ensures Growths(n, i, maxSize) <= Growths(n, j, maxSize)
    decreases j - i
  {
    if i < j {
      GrowthsMonotone(n, i, j - 1, maxSize);
    }
  }

  /** A full vector that is not yet at the limit cannot take another element without growing. */
  lemma OneGrowthMore(n: nat, i: nat, count: nat, maxSize: nat)
    requires n <= maxSize && i <= maxSize && i < count && PushedTimes(n, i, maxSize).capacity == i
    ensures count <= maxSize ==> Growths(n, i, maxSize) < Growths(n, count, maxSize)
    ensures Growths(n, i, maxSize) <= Growths(n, maxSize, maxSize)
  {
    GrowthsMonotone(n, i, maxSize, maxSize);
    if count <= maxSize {
      GrowthsMonotone(n, i + 1, count, maxSize);
    }
  }

  /** Appending costs a constant number of moves per element, and at most a third of the space is
      unused, right up to the allocator's limit. */
  lemma {:induction false} AmortisedGrowth(n: nat, count: nat, maxSize: nat)
    requires n <= maxSize && count <= maxSize
    ensures var g := PushedTimes(n, count, maxSize);
            && g.copied <= 4 * count
            && (g.capacity <= n || 2 * g.capacity <= 3 * count)
            && (g.capacity < maxSize ==> g.copied <= 3 * (g.capacity - n))
    decreases count
  {
    if count == 0 {
    } else {
      AmortisedGrowth(n, count - 1, maxSize);
    }
  }

  /** How a `push_back` ends.  `PastEnd`: growth at the allocator's limit made no room, and the
      code goes on to write behind the block, where C++ promises nothing. */
  datatype Pushing = Appended | OutOfMemory | PastEnd

  function Repeat<T>(v: T, count: nat): (values: seq<T>)
    ensures |values| == count && forall i :: 0 <= i < count ==> values[i] == v
  {
    if count == 0 then [] else Repeat(v, count - 1) + [v]
  }

  /** A `const T&` argument: a value elsewhere, a cell of a live heap block, or a cell inside
      the very vector it is handed to. */
  datatype Reference<+T> = Outside(v: T) | InHeap(block: Addr, index: nat) | OwnSlot(slot: nat)

  /** The owner token that `ReleaseHeap` hands out. */
  class HeapAllocation<T> {
    const memory: Memory<T>
    var data: Addr
    var size: nat
    var capacity: nat

    ghost predicate Valid()
      reads this, memory
    {
      if data == 0 then size == capacity == 0
      else data in memory.blocks && !memory.blocks[data].raw && |memory.blocks[data].cells| == capacity
           && Filled(memory.blocks[data].cells, size)
    }

    function Owned(): set<Addr>
      reads this
    {
      if data == 0 then {} else {data}
    }

    constructor (memory: Memory<T>, data: Addr, size: nat, capacity: nat)
      ensures this.memory == memory && this.data == data && this.size == size && this.capacity == capacity
    {
      this.memory, this.data, this.size, this.capacity := memory, data, size, capacity;
    }

    method Clear()
      modifies this
      ensures data == size == capacity == 0
    {
      data, size, capacity := 0, 0, 0;
    }

    method Reset()
      requires Valid()
      modifies this, memory
      ensures Valid() && data == 0 && memory.blocks == old(memory.blocks) - old(Owned())
    {
      if data != 0 {
        memory.Deallocate(data, capacity);
      }
      Clear();
    }

    method MoveConstructFrom(other: HeapAllocation<T>)
      requires other != this && other.memory == memory && other.Valid() && data == size == capacity == 0
      modifies this, other
      ensures Valid() && data == old(other.data) && size == old(other.size) && capacity == old(other.capacity)
      ensures other.Valid() && other.data == 0
    {
      data, size, capacity := other.data, other.size, other.capacity;
      other.Clear();
    }

    method MoveAssign(other: HeapAllocation<T>)
      requires Valid() && other.memory == memory && other.Valid()
      requires other != this ==> Owned() !! other.Owned()
      modifies this, other, memory
      ensures Valid() && data == old(other.data) && size == old(other.size) && capacity == old(other.capacity)
      ensures if other == this then memory.blocks == old(memory.blocks)
              else other.Valid() && other.data == 0 && memory.blocks == old(memory.blocks) - old(Owned())
    {
      if this == other {
        return;
      }
      Reset();
      data, size, capacity := other.data, other.size, other.capacity;
      other.Clear();
    }

    method Release() returns (released: Addr)
      requires Valid()
      modifies this
      ensures released == old(data) && Valid() && data == 0
    {
      released := data;
      Clear();
    }
  }

  class SmallVector<T> {
    const memory: Memory<T>
    const n: nat // inline capacity
    const zero: T // the value-initialised element

    var storage: Storage<T>
    var size: nat
    var capacity: nat
    ghost var copied: nat // elements moved by `Reallocate` so far

    function View(): Vec<T>
      reads this
    {
      Vec(storage, size, capacity)
    }

    ghost predicate Valid()
      reads this, memory
    {
      WellFormed(View(), n, memory.blocks) && n < memory.maxSize && capacity <= memory.maxSize
    }

    function Contents(): (contents: seq<T>)
      requires Valid()
      reads this, memory
      ensures |contents| == size
    {
      Elements(View(), n, memory.blocks)
    }

    function Owned(): set<Addr>
      reads this
    {
      OwnedBy(View(), n)
    }

    predicate IsHeap()
      reads this
    {
      capacity > n
    }

    /** Just constructed by default: where every other constructor starts. */
    ghost predicate Fresh()
      reads this, memory
    {
      Valid() && size == 0 && Contents() == [] && capacity == n && copied == 0
    }

    constructor (memory: Memory<T>, n: nat, zero: T)
      requires 0 < n < memory.maxSize
      ensures Fresh() && Contents() == [] && Owned() == {}
      ensures this.memory == memory && this.n == n && this.zero == zero
    {
      this.memory, this.n, this.zero := memory, n, zero;
      storage, size, capacity, copied := Inline(Blank(n)), 0, n, 0;
    }

    ghost function Numbers(): Growth
      reads this
    {
      Growth(size, capacity, copied)
    }

    ghost predicate Readable(r: Reference<T>)
      reads this, memory
    {
      match r
      case Outside(_) => true
      case InHeap(a, i) => a in memory.blocks && i < |memory.blocks[a].cells| && memory.blocks[a].cells[i].Val?
      case OwnSlot(i) => storage.Inline? && i < |storage.cells| && storage.cells[i].Val?
    }

    function Deref(r: Reference<T>): T
      requires Readable(r)
      reads this, memory
    {
      match r
      case Outside(v) => v
      case InHeap(a, i) => memory.Read(a, i)
      case OwnSlot(i) => storage.cells[i].v
    }

    // ------------------------------------------------------------- changes of representation

    /** Take over a filled block; give the old one back last. */
    method ReplaceWithHeap(data: Addr, newSize: nat, newCapacity: nat)
      requires Valid() && n < newCapacity <= memory.maxSize
      requires data != 0 && data in memory.blocks && data !in Owned() && newSize <= newCapacity
      requires !memory.blocks[data].raw && |memory.blocks[data].cells| == newCapacity
      requires Filled(memory.blocks[data].cells, newSize)
      modifies this, memory
      ensures Valid() && Owned() == {data} && size == newSize && capacity == newCapacity && copied == old(copied)
      ensures memory.blocks == old(memory.blocks) - old(Owned())
      ensures Contents() == Values(old(memory.blocks)[data].cells, newSize)
    {
      var oldData := 0;
      var oldCapacity := 0;
      if IsHeap() {
        oldData := storage.data;
        oldCapacity := capacity;
      }
      storage := Heap(data);
      size := newSize;
      capacity := newCapacity;
      if oldData != 0 {
        memory.Deallocate(oldData, oldCapacity);
      }
    }

    method ReconstructInline()
      requires 0 < n < memory.maxSize
      modifies this
      ensures Valid() && Contents() == [] && Owned() == {} && capacity == n && copied == old(copied)
    {
      storage := Inline(Blank(n));
      size := 0;
      capacity := n;
    }

    method SwitchToInline()
      requires Valid() && IsHeap()
      modifies this, memory
      ensures Valid() && Contents() == [] && Owned() == {} && capacity == n && copied == old(copied)
      ensures memory.blocks == old(memory.blocks) - old(Owned())
    {
      var oldData := storage.data;
      var oldCapacity := capacity;
      ReconstructInline();
      memory.Deallocate(oldData, oldCapacity);
    }

    method Clear()
      requires Valid()
      modifies this`size
      ensures Valid() && Contents() == []
    {
      size := 0;
    }

    /** `data()[i]`, wherever that points. */
    function At(i: nat): T
      requires Valid() && i < size
      reads this, memory
    {
      if IsHeap() then memory.Read(storage.data, i) else storage.cells[i].v
    }

    /** `Construct(data() + size_, v)` and `++size_`. */
    method Append(v: T)
      requires Valid() && size < capacity
      modifies this`storage, this`size, memory
      ensures Valid() && Contents() == old(Contents()) + [v] && Owned() == old(Owned())
      ensures Footprint(old(memory.blocks), memory.blocks, Owned(), Owned())
    {
      if IsHeap() {
        memory.Write(storage.data, size, v);
      } else {
        storage := Inline(storage.cells[size := Val(v)]);
      }
      size := size + 1;
    }

    /** Overwrite the elements through `data()`. */
    method Overwrite(values: seq<T>)
      requires Valid() && |values| == size
      modifies this`storage, memory
      ensures Valid() && Contents() == values && Owned() == old(Owned())
      ensures Footprint(old(memory.blocks), memory.blocks, Owned(), Owned())
    {
      if IsHeap() {
        memory.WriteRange(storage.data, 0, values);
      } else {
        var cells := storage.cells;
        for i := 0 to |values|
          invariant |cells| == n
          invariant forall j :: 0 <= j < i ==> cells[j] == Val(values[j])
        {
          cells := cells[i := Val(values[i])];
        }
        storage := Inline(cells);
      }
    }

    /** Copy all elements of this vector into a block it does not own. */
    method CopyInto(data: Addr)
      requires Valid() && data in memory.blocks && data !in Owned()
      requires size <= |memory.blocks[data].cells|
      modifies memory
      ensures data in memory.blocks && memory.blocks == old(memory.blocks)[data := memory.blocks[data]]
      ensures memory.blocks[data].raw == old(memory.blocks)[data].raw
      ensures |memory.blocks[data].cells| == |old(memory.blocks)[data].cells|
      ensures Filled(memory.blocks[data].cells, size)
      ensures Values(memory.blocks[data].cells, size) == old(Contents())
    {
      for i := 0 to size
        invariant data in memory.blocks && memory.blocks == old(memory.blocks)[data := memory.blocks[data]]
        invariant memory.blocks[data].raw == old(memory.blocks)[data].raw
        invariant |memory.blocks[data].cells| == |old(memory.blocks)[data].cells|
        invariant Valid() && Contents() == old(Contents())
        invariant forall j :: 0 <= j < i ==> memory.blocks[data].cells[j] == Val(old(Contents())[j])
      {
        memory.Write(data, i, At(i));
      }
    }

    /** The elements move to a new block; on failure nothing has happened. */
    method Reallocate(newCapacity: nat, at: Option<Addr>) returns (ok: bool)
      requires Valid() && size <= newCapacity && n < newCapacity && memory.Grants(newCapacity, at)
      modifies this, memory
      ensures Valid() && Contents() == old(Contents())
      ensures ok == at.Some?
      ensures !ok ==> View() == old(View()) && memory.blocks == old(memory.blocks) && copied == old(copied)
      ensures ok ==> capacity == newCapacity && Owned() == {at.value} && copied == old(copied) + size
      ensures Footprint(old(memory.blocks), memory.blocks, old(Owned()), Owned())
    {
      ok := memory.Allocate(newCapacity, at);
      if !ok {
        return;
      }
      CopyInto(at.value);
      ReplaceWithHeap(at.value, size, newCapacity);
      copied := copied + size;
    }

    // ------------------------------------------------------------------------- construction

    method InitializeFill(count: nat, value: T, at: Option<Addr>) returns (ok: bool)
      requires Fresh() && memory.Grants(count, at)
      modifies this, memory
      ensures Valid() && Footprint(old(memory.blocks), memory.blocks, {}, Owned())
      ensures ok == (count <= n || at.Some?)
      ensures if ok then Contents() == Repeat(value, count) && capacity == (if count <= n then n else count)
              else Fresh() && memory.blocks == old(memory.blocks)
    {
      if count <= n {
        for i := 0 to count
          invariant Valid() && size == i && capacity == n && Contents() == Repeat(value, i)
          invariant Footprint(old(memory.blocks), memory.blocks, {}, {})
        {
          Append(value);
        }
        return true;
      }
      ok := memory.Allocate(count, at);
      if ok {
        memory.WriteRange(at.value, 0, Repeat(value, count));
        ReplaceWithHeap(at.value, count, count);
      }
    }

    method InitializeCount(count: nat, at: Option<Addr>) returns (ok: bool)
      requires Fresh() && memory.Grants(count, at)
      modifies this, memory
      ensures Valid() && Footprint(old(memory.blocks), memory.blocks, {}, Owned())
      ensures ok == (count <= n || at.Some?)
      ensures if ok then Contents() == Repeat(zero, count) && capacity == (if count <= n then n else count)
              else Fresh() && memory.blocks == old(memory.blocks)
    {
      ok := InitializeFill(count, zero, at);
    }

    /** The inline branch of a range constructor. */
    method ConstructInline(values: seq<T>)
      requires Fresh() && |values| <= n
      modifies this`storage, this`size, memory
      ensures Valid() && Contents() == values && Owned() == {}
      ensures Footprint(old(memory.blocks), memory.blocks, {}, {})
    {
      hide Filled, Elements;
      for i := 0 to |values|
        invariant Valid() && size == i && Contents() == values[..i] && Owned() == {}
        invariant Footprint(old(memory.blocks), memory.blocks, {}, {})
      {
        Append(values[i]);
      }
    }

    method InitializeForwardRange(values: seq<T>, at: Option<Addr>) returns (ok: bool)
      requires Fresh() && memory.Grants(|values|, at)
      modifies this, memory
      ensures Valid() && Footprint(old(memory.blocks), memory.blocks, {}, Owned())
      ensures ok == (|values| <= n || at.Some?)
      ensures if ok then Contents() == values && capacity == (if |values| <= n then n else |values|)
              else Fresh() && memory.blocks == old(memory.blocks)
    {
      if |values| <= n {
        ConstructInline(values);
        return true;
      }
      ok := memory.Allocate(|values|, at);
      if ok {
        memory.WriteRange(at.value, 0, values);
        ReplaceWithHeap(at.value, |values|, |values|);
      }
    }

    /** A copy has the same elements in storage of its own. */
    method CopyConstructFrom(other: SmallVector<T>, at: Option<Addr>) returns (ok: bool)
      requires Fresh() && other != this && other.memory == memory && other.n == n && other.Valid()
      requires memory.Grants(other.capacity, at)
      modifies this, memory
      ensures Valid() && other.Valid() && other.Contents() == old(other.Contents()) && Owned() !! other.Owned()
      ensures Footprint(old(memory.blocks), memory.blocks, {}, Owned())
      ensures ok == (!other.IsHeap() || at.Some?)
      ensures if ok then Contents() == other.Contents() && capacity == other.capacity
              else Fresh() && memory.blocks == old(memory.blocks)
    {
      ok := true;
      if other.IsHeap() {
        ok := Reallocate(other.capacity, at);
        if !ok {
          return;
        }
      }
      CopyElements(other);
    }

    /** Copy-construct the elements of `other` behind none of one's own. */
    method CopyElements(other: SmallVector<T>)
      requires Valid() && size == 0 && other != this && other.memory == memory && other.Valid()
      requires other.size <= capacity && Owned() !! other.Owned()
      modifies this`storage, this`size, memory
      ensures Valid() && Contents() == old(other.Contents()) && Owned() == old(Owned())
      ensures other.Valid() && other.Contents() == old(other.Contents())
      ensures Footprint(old(memory.blocks), memory.blocks, Owned(), Owned())
    {
      hide Filled, Elements;
      while size < other.size
        invariant Valid() && other.Valid() && size <= other.size && other.Contents() == old(other.Contents())
        invariant Contents() == other.Contents()[..size] && Owned() == old(Owned())
        invariant Footprint(old(memory.blocks), memory.blocks, Owned(), Owned())
      {
        AppendFrom(other, size);
      }
    }

    method AppendFrom(other: SmallVector<T>, i: nat)
      requires Valid() && other != this && other.memory == memory && other.Valid() && Owned() !! other.Owned()
      requires size < capacity && i < other.size
      modifies this`storage, this`size, memory
      ensures Valid() && Contents() == old(Contents()) + [old(other.Contents())[i]] && Owned() == old(Owned())
      ensures other.Valid() && other.Contents() == old(other.Contents())
      ensures Footprint(old(memory.blocks), memory.blocks, Owned(), Owned())
    {
      ghost var before := memory.blocks;
      Append(other.At(i));
      Undisturbed(other.View(), other.n, before, memory.blocks);
    }

    /** Heap blocks change hands without being touched; the source is left empty and inline
        (or, if it was inline, just empty). */
    method MoveConstructFrom(other: SmallVector<T>)
      requires Fresh() && other != this && other.memory == memory && other.n == n && other.Valid()
      modifies this, other, memory
      ensures Valid() && Contents() == old(other.Contents()) && Owned() == old(other.Owned())
      ensures capacity == old(other.capacity)
      ensures other.Valid() && other.Contents() == [] && !other.IsHeap()
      ensures memory.blocks == old(memory.blocks)
    {
      if other.IsHeap() {
        storage := Heap(other.storage.data);
        size := other.size;
        capacity := other.capacity;
        other.ReconstructInline();
        return;
      }
      ghost var before := memory.blocks;
      CopyElements(other);
      other.Clear();
    }

    // --------------------------------------------------------------------------- assignment

    method CopyAssign(other: SmallVector<T>, at: Option<Addr>) returns (ok: bool)
      requires Valid() && other.memory == memory && other.n == n && other.Valid()
      requires other != this ==> Owned() !! other.Owned()
      requires memory.Grants(other.capacity, at)
      modifies this, memory
      ensures Valid() && other.Valid() && other.Contents() == old(other.Contents())
      ensures other != this ==> Owned() !! other.Owned() && other.View() == old(other.View())
      ensures Footprint(old(memory.blocks), memory.blocks, old(Owned()), Owned())
      ensures ok == (other == this || !other.IsHeap() || at.Some?)
      ensures if ok then Contents() == other.Contents() && capacity == other.capacity
              else View() == old(View()) && memory.blocks == old(memory.blocks)
    {
      if this == other {
        return true;
      }
      if other.IsHeap() {
        ok := CopyAssignHeap(other, at);
      } else {
        AssignInline(other);
        ok := true;
      }
    }

    method CopyAssignHeap(other: SmallVector<T>, at: Option<Addr>) returns (ok: bool)
      requires Valid() && other != this && other.memory == memory && other.n == n && other.Valid()
      requires Owned() !! other.Owned() && other.IsHeap() && memory.Grants(other.capacity, at)
      modifies this, memory
      ensures Valid() && other.Valid() && other.Contents() == old(other.Contents()) && Owned() !! other.Owned()
      ensures Footprint(old(memory.blocks), memory.blocks, old(Owned()), Owned())
      ensures ok == at.Some?
      ensures if ok then Contents() == other.Contents() && capacity == other.capacity
              else View() == old(View()) && memory.blocks == old(memory.blocks)
    {
      ok := memory.Allocate(other.capacity, at);
      if !ok {
        return;
      }
      other.CopyInto(at.value);
      ReplaceWithHeap(at.value, other.size, other.capacity);
    }

    /** Any heap block is given up before the elements of the inline `other` come in. */
    method AssignInline(other: SmallVector<T>)
      requires Valid() && other != this && other.memory == memory && other.n == n && other.Valid()
      requires Owned() !! other.Owned() && !other.IsHeap()
      modifies this, memory
      ensures Valid() && !IsHeap() && Contents() == old(other.Contents())
      ensures other.Valid() && other.Contents() == old(other.Contents())
      ensures memory.blocks == old(memory.blocks) - old(Owned())
    {
      if IsHeap() {
        SwitchToInline();
      }
      size := 0;
      CopyElements(other);
    }

    /** Never allocates: a heap block changes owner, inline elements are copied. */
    method MoveAssign(other: SmallVector<T>)
      requires Valid() && other.memory == memory && other.n == n && other.Valid()
      requires other != this ==> Owned() !! other.Owned()
      modifies this, other, memory
      ensures Valid() && Contents() == old(other.Contents()) && Owned() == old(other.Owned())
      ensures capacity == old(other.capacity)
      ensures if other == this then memory.blocks == old(memory.blocks)
              else other.Valid() && other.Contents() == [] && !other.IsHeap()
                   && memory.blocks == old(memory.blocks) - old(Owned())
      ensures Footprint(old(memory.blocks), memory.blocks, old(Owned() + other.Owned()), Owned() + other.Owned())
    {
      if this == other {
        return;
      }
      if other.IsHeap() {
        MoveAssignHeap(other);
      } else {
        AssignInline(other);
        other.Clear();
      }
    }

    method MoveAssignHeap(other: SmallVector<T>)
      requires Valid() && other != this && other.memory == memory && other.n == n && other.Valid()
      requires Owned() !! other.Owned() && other.IsHeap()
      modifies this, other, memory
      ensures Valid() && Contents() == old(other.Contents()) && Owned() == old(other.Owned())
      ensures capacity == old(other.capacity)
      ensures other.Valid() && other.Contents() == [] && !other.IsHeap()
      ensures memory.blocks == old(memory.blocks) - old(Owned())
    {
      ReplaceWithHeap(other.storage.data, other.size, other.capacity);
      other.ReconstructInline();
    }

    // ----------------------------------------------------------------------------- capacity

    method Reserve(requested: nat, at: Option<Addr>) returns (ok: bool)
      requires Valid() && memory.Grants(requested, at)
      modifies this, memory
      ensures Valid() && Contents() == old(Contents())
      ensures Footprint(old(memory.blocks), memory.blocks, old(Owned()), Owned())
      ensures ok == (requested <= old(capacity) || at.Some?)
      ensures capacity == if ok && requested > old(capacity) then requested else old(capacity)
      ensures capacity == old(capacity) ==> View() == old(View()) && memory.blocks == old(memory.blocks)
    {
      if requested <= capacity {
        return true;
      }
      ok := Reallocate(requested, at);
    }

    method Resize(count: nat, at: Option<Addr>) returns (ok: bool)
      requires Valid() && memory.Grants(count, at)
      modifies this, memory
      ensures Valid() && Footprint(old(memory.blocks), memory.blocks, old(Owned()), Owned())
      ensures ok == (count <= old(capacity) || at.Some?)
      ensures Contents() == if !ok then old(Contents())
                            else if count <= old(size) then old(Contents())[..count]
                            else old(Contents()) + Repeat(zero, count - old(size))
      ensures capacity == if ok && count > old(capacity) then count else old(capacity)
      ensures !ok ==> View() == old(View()) && memory.blocks == old(memory.blocks)
    {
      if count <= size {
        size := count;
        return true;
      }
      ok := true;
      if count > capacity {
        ok := Reallocate(count, at);
        if !ok {
          return;
        }
      }
      Extend(count);
    }

    /** The loop of `resize`: value-initialised elements up to `count`. */
    method Extend(count: nat)
      requires Valid() && size <= count <= capacity
      modifies this`storage, this`size, memory
      ensures Valid() && Contents() == old(Contents()) + Repeat(zero, count - old(size)) && Owned() == old(Owned())
      ensures Footprint(old(memory.blocks), memory.blocks, Owned(), Owned())
    {
      while size < count
        invariant Valid() && old(size) <= size <= count && Owned() == old(Owned())
        invariant Contents() == old(Contents()) + Repeat(zero, size - old(size))
        invariant Footprint(old(memory.blocks), memory.blocks, Owned(), Owned())
      {
        Append(zero);
      }
    }

    method GrowForAppend(at: Option<Addr>) returns (ok: bool)
      requires Valid() && size == capacity && memory.Grants(Grown(capacity, memory.maxSize), at)
      modifies this, memory
      ensures Valid() && Contents() == old(Contents())
      ensures Footprint(old(memory.blocks), memory.blocks, old(Owned()), Owned())
      ensures ok == at.Some?
      ensures !ok ==> View() == old(View()) && memory.blocks == old(memory.blocks) && copied == old(copied)
      ensures ok ==> capacity == Grown(old(capacity), memory.maxSize) && copied == old(copied) + size
      ensures ok ==> (capacity > size <==> old(capacity) < memory.maxSize)
    {
      GrowthMakesRoom(capacity, memory.maxSize);
      ok := Reallocate(Grown(capacity, memory.maxSize), at);
    }

    /** The argument may live in the buffer that growth frees: it is read before. */
    method PushBack(value: Reference<T>, at: Option<Addr>) returns (outcome: Pushing)
      requires Valid() && Readable(value) && memory.Grants(Grown(capacity, memory.maxSize), at)
      modifies this, memory
      ensures Valid() && Footprint(old(memory.blocks), memory.blocks, old(Owned()), Owned())
      ensures outcome == if old(size) == old(capacity) && at.None? then OutOfMemory
                         else if old(size) < memory.maxSize then Appended else PastEnd
      ensures outcome.Appended? ==>
        Contents() == old(Contents()) + [old(Deref(value))] && Numbers() == Pushed(old(Numbers()), memory.maxSize)
      ensures !outcome.Appended? ==> Contents() == old(Contents())
      ensures outcome.OutOfMemory? ==>
        View() == old(View()) && Numbers() == old(Numbers()) && memory.blocks == old(memory.blocks)
    {
      if size == capacity {
        var saved := Deref(value);
        var ok := GrowForAppend(at);
        if !ok {
          return OutOfMemory;
        }
        if size == capacity {
          return PastEnd;
        }
        ghost var mid, held := memory.blocks, Owned();
        Append(saved);
        FootprintsCompose(old(memory.blocks), mid, memory.blocks, old(Owned()), held, Owned());
      } else {
        Append(Deref(value));
      }
      outcome := Appended;
    }

    /** `push_back` of a value from outside, when the allocator has a block left or has none. */
    method PushGranted(value: T, granted: bool) returns (outcome: Pushing)
      requires Valid()
      modifies this, memory
      ensures Valid() && Footprint(old(memory.blocks), memory.blocks, old(Owned()), Owned())
      ensures outcome == if old(size) == old(capacity) && !granted then OutOfMemory
                         else if old(size) < memory.maxSize then Appended else PastEnd
      ensures Contents() == if outcome.Appended? then old(Contents()) + [value] else old(Contents())
      ensures outcome.Appended? ==> Numbers() == Pushed(old(Numbers()), memory.maxSize)
      ensures outcome.OutOfMemory? ==> Numbers() == old(Numbers())
      ensures outcome.PastEnd? ==> size == old(size)
    {
      hide Filled, Elements;
      GrowthMakesRoom(capacity, memory.maxSize);
      var room := Grown(capacity, memory.maxSize);
      var at: Option<Addr> :| memory.Offers(room, granted, at) by { memory.AnOffer(room, granted); }
      assert memory.Offers(room, granted, at);
      outcome := PushBack(Outside(value), at);
    }

    /** From a range that can be read only once, when the allocator grants `grants` blocks and then
        no more: all values, or as many as fitted. */
    method InitializeInputRange(values: seq<T>, grants: nat) returns (outcome: Pushing)
      requires Fresh()
      modifies this, memory
      ensures Valid() && Footprint(old(memory.blocks), memory.blocks, {}, Owned())
      ensures size <= |values| && Contents() == values[..size] && (outcome.Appended? <==> size == |values|)
      ensures outcome.Appended? <==> |values| <= memory.maxSize && Growths(n, |values|, memory.maxSize) <= grants
      ensures outcome.PastEnd? <==>
        |values| > memory.maxSize && Growths(n, memory.maxSize, memory.maxSize) < grants
      ensures outcome.PastEnd? ==> size == memory.maxSize < |values|
      ensures outcome.OutOfMemory? ==>
        size == capacity && size <= memory.maxSize && Growths(n, size, memory.maxSize) == grants
      ensures outcome.Appended? ==> copied <= 4 * size && (capacity <= n || 2 * capacity <= 3 * size)
    {
      hide Filled, Elements, Grown;
      var left: nat := grants;
      for i := 0 to |values|
        invariant Valid() && size == i && Contents() == values[..i] && i <= memory.maxSize
        invariant Numbers() == PushedTimes(n, i, memory.maxSize)
        invariant left + Growths(n, i, memory.maxSize) == grants
        invariant Footprint(old(memory.blocks), memory.blocks, {}, Owned())
      {
        ghost var mid, held := memory.blocks, Owned();
        outcome := PushGranted(values[i], left > 0);
        FootprintsCompose(old(memory.blocks), mid, memory.blocks, {}, held, Owned());
        if !outcome.Appended? {
          OneGrowthMore(n, i, |values|, memory.maxSize);
          return;
        }
        if PushedTimes(n, i, memory.maxSize).capacity == i {
          left := left - 1;
        }
      }
      AmortisedGrowth(n, |values|, memory.maxSize);
      outcome := Appended;
    }

    // ------------------------------------------------------------------------------ handing over

    /** The block leaves with the token; an inline vector keeps everything and answers with an
        empty token. */
    method ReleaseHeap() returns (allocation: HeapAllocation<T>)
      requires Valid()
      modifies this
      ensures fresh(allocation) && allocation.memory == memory && allocation.Valid()
        && allocation.Owned() == old(Owned())
      ensures Valid() && !IsHeap()
      ensures if old(IsHeap())
              then Contents() == [] && allocation.size == old(size) && allocation.capacity == old(capacity)
                   && Values(memory.blocks[allocation.data].cells, allocation.size) == old(Contents())
              else View() == old(View()) && allocation.data == 0
    {
      if !IsHeap() {
        allocation := new HeapAllocation(memory, 0, 0, 0);
        return;
      }
      allocation := new HeapAllocation(memory, storage.data, size, capacity);
      ReconstructInline();
    }

    /** `~SmallVector`. */
    method Destroy()
      requires Valid()
      modifies memory
      ensures memory.blocks == old(memory.blocks) - Owned()
    {
      if IsHeap() {
        memory.Deallocate(storage.data, capacity);
      }
    }

    /** `assign`: the new elements are complete before the old ones go. */
    method Assign(values: seq<T>, at: Option<Addr>) returns (ok: bool)
      requires Valid() && memory.Grants(|values|, at)
      modifies this, memory
      ensures Valid() && Footprint(old(memory.blocks), memory.blocks, old(Owned()), Owned())
      ensures ok == (|values| <= n || at.Some?)
      ensures if ok then Contents() == values && capacity == (if |values| <= n then n else |values|)
              else View() == old(View()) && memory.blocks == old(memory.blocks) && Contents() == old(Contents())
    {
      hide Filled, Elements, Grown;
      var replacement := new SmallVector(memory, n, zero);
      ok := replacement.InitializeForwardRange(values, at);
      if ok {
        Undisturbed(View(), n, old(memory.blocks), memory.blocks);
        MoveAssign(replacement);
      }
      ghost var held := memory.blocks;
      replacement.Destroy();
      assert memory.blocks == held;
    }
  }

  /** The defect of `push_back` at the allocator's limit: with room for three elements per block
      and two inline, a fourth element finds no room although the allocator granted the block. */
  method FourthOfThree() returns (size: nat, outcome: Pushing)
    ensures size == 3 && outcome == PastEnd
  {
    var memory := new Memory<int>(3);
    var v := new SmallVector(memory, 2, 0);
    var _ := v.InitializeForwardRange([1, 2, 3], Some(1));
    outcome := v.PushBack(Outside(4), Some(v.storage.data + 1));
    size := v.size;
  }
}
