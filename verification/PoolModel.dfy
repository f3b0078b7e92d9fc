/** The memory pool as a value, and each mutex-protected body of
    src/reusable_memory_pool.cc as a function from one pool value to the next.

    A block is named by its device pointer.  Everything the code asks of the
    outside world (the backend allocator, the growth of a C++ container) is an
    argument that says whether that request fails. */
module PoolModel {
  import opened Wrappers

  type Ptr = nat       // 0 is the null pointer
  type ThreadId = nat

  const NULL: Ptr := 0
  const SIZE_MAX: nat := 0xFFFF_FFFF_FFFF_FFFF
  const GENERATION_MAX: nat := 0xFFFF_FFFF_FFFF_FFFF
  const ALIGNMENT: nat := 256
  const KIB: nat := 1024
  const MIB: nat := 1024 * 1024

  /** Block sizes of the size classes, smallest first. */
  const CLASS_SIZES: seq<nat> := [32 * KIB, 256 * KIB, MIB, 2 * MIB, 4 * MIB, 8 * MIB, 16 * MIB,
                                  32 * MIB, 64 * MIB, 128 * MIB, 256 * MIB]

  datatype Kind = SizeClass | Large | Exact

  datatype Block = Block(ptr: Ptr, size: nat, kind: Kind, classIndex: nat, pinCount: nat,
                         inUse: bool, useCount: nat, generation: nat)

  /** The device allocator: the pointers it has handed out and not taken back, and whether
      it was ever asked to free anything else. */
  datatype Backend = Backend(live: set<Ptr>, misused: bool)

  /** `free[c]` is the free list of size class `c`. */
  datatype Pool = Pool(pinned: bool, owner: Option<ThreadId>, generation: nat,
                       free: seq<seq<Ptr>>, large: seq<Ptr>, all: map<Ptr, Block>,
                       frozen: seq<Ptr>, frozenSet: set<Ptr>, backend: Backend)

  datatype Error = InvalidArgument | LengthError | BadAlloc | BackendError | NotOwned | DoubleFree
                 | AlreadyActive | StaleBlocks | GenerationExhausted | WrongThread | NotActive

  /** Which growth requests of `freeze_for_capture_` fail. */
  datatype FreezeFaults = FreezeFaults(pushFails: bool, insertFails: bool)

  /** What the outside world answers to one allocation. */
  datatype AllocFaults = AllocFaults(blockFails: bool, malloc: Option<Ptr>, emplaceFails: bool,
                                     largePushFails: bool, freeze: FreezeFaults, freeFails: bool)

  const EMPTY_POOL: Pool :=
    Pool(false, None, 0, [[], [], [], [], [], [], [], [], [], [], []], [], map[], [], {}, Backend({}, false))

  function Malloc(b: Backend, p: Ptr): Backend {
    b.(live := b.live + {p})
  }

  function Free(b: Backend, p: Ptr, fails: bool): Backend {
    Backend(if fails then b.live else b.live - {p}, b.misused || p !in b.live)
  }

  /** 64-bit unsigned wrap-around. */
  function Wrap(n: nat): nat {
    n % (SIZE_MAX + 1)
  }

  // ---------------------------------------------------------------- sequences

  ghost predicate Distinct<T>(s: seq<T>) {
    forall i, j :: 0 <= i < j < |s| ==> s[i] != s[j]
  }

  /** `std::remove` followed by `erase`: drop every occurrence. */
  function Remove<T(==)>(s: seq<T>, x: T): seq<T> {
    if s == [] then [] else if s[0] == x then Remove(s[1..], x) else [s[0]] + Remove(s[1..], x)
  }

  function Without<T>(s: seq<T>, i: nat): seq<T>
    requires i < |s|
  {
    s[..i] + s[i + 1..]
  }

  // ---------------------------------------------------------------- sizes

  function AlignUp(size: nat, alignment: nat): Option<nat>
    requires 0 < alignment <= SIZE_MAX
  {
    if size > SIZE_MAX - (alignment - 1) then None
    else Some((size + alignment - 1) / alignment * alignment)
  }

  /** The first class from `c` on whose blocks are large enough, or the number of classes. */
  function FirstClass(size: nat, c: nat): nat
    requires c <= |CLASS_SIZES|
    decreases |CLASS_SIZES| - c
  {
    if c == |CLASS_SIZES| || size <= CLASS_SIZES[c] then c else FirstClass(size, c + 1)
  }

  // ---------------------------------------------------------------- pinning

  predicate OwnsCapture(s: Pool, t: ThreadId) {
    s.pinned && s.owner == Some(t)
  }

  /** `freeze_for_capture_`: the flag says whether it returned. */
  function Freeze(s: Pool, p: Ptr, t: ThreadId, faults: FreezeFaults): (Pool, bool)
    requires p in s.all
  {
    if OwnsCapture(s, t) && p !in s.frozenSet then
      if faults.pushFails then (s, false)
      else if faults.insertFails then (s.(frozen := (s.frozen + [p])[..|s.frozen|]), false)
      else (s.(frozen := s.frozen + [p], frozenSet := s.frozenSet + {p},
               all := s.all[p := s.all[p].(pinCount := s.all[p].pinCount + 1)]), true)
    else (s, true)
  }

  /** One guarded decrement per listed block, in order. */
  function Unpin(all: map<Ptr, Block>, blocks: seq<Ptr>): map<Ptr, Block> {
    if blocks == [] then all
    else
      var p := blocks[0];
      var next := if p in all && all[p].pinCount > 0
                  then all[p := all[p].(pinCount := all[p].pinCount - 1)] else all;
      Unpin(next, blocks[1..])
  }

  // ---------------------------------------------------------------- allocate

  predicate Fits(b: Block, size: nat, exact: bool) {
    && !b.inUse
    && b.kind == (if exact then Exact else Large)
    && (if exact then b.size == size else b.size >= size)
  }

  /** Position of the first block of a free list that is not in use. */
  function FirstIdle(all: map<Ptr, Block>, list: seq<Ptr>, i: nat): nat
    requires i <= |list|
    requires forall p :: p in list ==> p in all
    decreases |list| - i
  {
    if i == |list| || !all[list[i]].inUse then i else FirstIdle(all, list, i + 1)
  }

  /** Position of the first large or exact block that serves the request. */
  function FirstFit(all: map<Ptr, Block>, list: seq<Ptr>, size: nat, exact: bool, i: nat): nat
    requires i <= |list|
    requires forall p :: p in list ==> p in all
    decreases |list| - i
  {
    if i == |list| || Fits(all[list[i]], size, exact) then i else FirstFit(all, list, size, exact, i + 1)
  }

  function HandOut(b: Block, generation: nat): Block {
    b.(generation := generation, inUse := true, useCount := 1)
  }

  function FreshBlock(p: Ptr, size: nat, kind: Kind, c: nat): Block {
    Block(p, size, kind, c, 0, true, 1, 0)
  }

  function Rollback(s: Pool, p: Ptr, freeFails: bool): Pool {
    s.(large := Remove(s.large, p), all := s.all - {p}, backend := Free(s.backend, p, freeFails))
  }

  function Generation(s: Pool, t: ThreadId): nat {
    if OwnsCapture(s, t) then s.generation else 0
  }

  /** Everything the code looks up through a list is a block of the pool. */
  ghost predicate Listed(s: Pool) {
    && |s.free| == |CLASS_SIZES|
    && (forall c, p :: 0 <= c < |s.free| && p in s.free[c] ==> p in s.all)
    && (forall p :: p in s.large ==> p in s.all)
    && (forall p :: p in s.all ==> s.all[p].kind == SizeClass ==> s.all[p].classIndex < |s.free|)
  }

  /** Reuse of block `p` once `rest` says where it is removed from. */
  function Reuse(s: Pool, t: ThreadId, p: Ptr, faults: FreezeFaults): (Pool, bool)
    requires p in s.all
  {
    var g := Generation(s, t);
    var (frozen, ok) := Freeze(s, p, t, faults);
    if !ok then (frozen, false)
    else (frozen.(all := frozen.all[p := HandOut(frozen.all[p], g)]), true)
  }

  /** The end of both growing paths: freeze the new block and stamp it, or undo it. */
  function Finish(placed: Pool, t: ThreadId, p: Ptr, generation: nat, faults: AllocFaults): (Pool, Outcome<Ptr, Error>)
    requires p in placed.all
  {
    var (frozen, ok) := Freeze(placed, p, t, faults.freeze);
    if !ok then (Rollback(frozen, p, faults.freeFails), Throw(BadAlloc))
    else (frozen.(all := frozen.all[p := frozen.all[p].(generation := generation)]), Ok(p))
  }

  /** A new block of class `c`, undone if anything after the backend's answer fails. */
  function GrowClass(s: Pool, t: ThreadId, c: nat, p: Ptr, faults: AllocFaults): (Pool, Outcome<Ptr, Error>)
    requires c < |CLASS_SIZES|
  {
    var owned := s.(backend := Malloc(s.backend, p));
    if faults.emplaceFails then (Rollback(owned, p, faults.freeFails), Throw(BadAlloc))
    else
      var placed := owned.(all := s.all[p := FreshBlock(p, CLASS_SIZES[c], SizeClass, c)]);
      Finish(placed, t, p, Generation(s, t), faults)
  }

  function GrowLarge(s: Pool, t: ThreadId, size: nat, exact: bool, p: Ptr, faults: AllocFaults)
    : (Pool, Outcome<Ptr, Error>)
  {
    var owned := s.(backend := Malloc(s.backend, p));
    if faults.emplaceFails then (Rollback(owned, p, faults.freeFails), Throw(BadAlloc))
    else
      var mapped := owned.(all := s.all[p := FreshBlock(p, size, if exact then Exact else Large, 0)]);
      if faults.largePushFails then (Rollback(mapped, p, faults.freeFails), Throw(BadAlloc))
      else Finish(mapped.(large := s.large + [p]), t, p, Generation(s, t), faults)
  }

  function AllocateFromClass(s: Pool, t: ThreadId, c: nat, faults: AllocFaults): (Pool, Outcome<Ptr, Error>)
    requires Listed(s) && c < |CLASS_SIZES|
  {
    var i := FirstIdle(s.all, s.free[c], 0);
    if i < |s.free[c]| then
      var p := s.free[c][i];
      var (reused, ok) := Reuse(s, t, p, faults.freeze);
      if ok then (reused.(free := s.free[c := Without(s.free[c], i)]), Ok(p)) else (reused, Throw(BadAlloc))
    else if faults.blockFails then (s, Throw(BadAlloc))
    else if faults.malloc.None? then (s, Throw(BackendError))
    else GrowClass(s, t, c, faults.malloc.value, faults)
  }

  function AllocateLarge(s: Pool, t: ThreadId, size: nat, exact: bool, faults: AllocFaults): (Pool, Outcome<Ptr, Error>)
    requires Listed(s)
  {
    var i := FirstFit(s.all, s.large, size, exact, 0);
    if i < |s.large| then
      var p := s.large[i];
      var (reused, ok) := Reuse(s, t, p, faults.freeze);
      (reused, if ok then Ok(p) else Throw(BadAlloc))
    else if faults.blockFails then (s, Throw(BadAlloc))
    else if faults.malloc.None? then (s, Throw(BackendError))
    else GrowLarge(s, t, size, exact, faults.malloc.value, faults)
  }

  /** `allocate_impl_`. */
  function Allocate(s: Pool, t: ThreadId, size: nat, exact: bool, faults: AllocFaults): (Pool, Outcome<Ptr, Error>)
    requires Listed(s)
  {
    if size == 0 then (s, if exact then Throw(InvalidArgument) else Ok(NULL))
    else
      match AlignUp(size, ALIGNMENT)
      case None => (s, Throw(LengthError))
      case Some(aligned) =>
        var c := FirstClass(aligned, 0);
        if !exact && c < |CLASS_SIZES| then AllocateFromClass(s, t, c, faults)
        else AllocateLarge(s, t, aligned, exact, faults)
  }

  // ---------------------------------------------------------------- owners

  function Deallocate(s: Pool, p: Ptr, pushFails: bool): (Pool, Outcome<(), Error>)
    requires Listed(s)
  {
    if p == NULL then (s, Ok(()))
    else if p !in s.all then (s, Throw(NotOwned))
    else
      var b := s.all[p];
      if !b.inUse || b.useCount == 0 then (s, Throw(DoubleFree))
      else if b.useCount > 1 then (s.(all := s.all[p := b.(useCount := b.useCount - 1)]), Ok(()))
      else if b.kind == SizeClass && pushFails then (s, Throw(BadAlloc))
      else
        var lists := if b.kind == SizeClass then s.free[b.classIndex := s.free[b.classIndex] + [p]] else s.free;
        (s.(free := lists, all := s.all[p := b.(useCount := 0, inUse := false)]), Ok(()))
  }

  /** `retain_allocation`: returns the physical size. */
  function Retain(s: Pool, p: Ptr): (Pool, Outcome<nat, Error>)
    requires Listed(s)
  {
    if p !in s.all then (s, Throw(NotOwned))
    else
      var b := s.all[p];
      var lists := if b.kind == SizeClass then s.free[b.classIndex := Remove(s.free[b.classIndex], p)] else s.free;
      (s.(free := lists, all := s.all[p := b.(inUse := true, useCount := b.useCount + 1)]), Ok(b.size))
  }

  // ---------------------------------------------------------------- capture transactions

  function Begin(s: Pool, t: ThreadId): (Pool, Outcome<(), Error>) {
    if s.pinned then (s, Throw(AlreadyActive))
    else if s.frozen != [] || s.frozenSet != {} then (s, Throw(StaleBlocks))
    else if s.generation == GENERATION_MAX then (s, Throw(GenerationExhausted))
    else (s.(generation := s.generation + 1, pinned := true, owner := Some(t)), Ok(()))
  }

  /** The first critical section of `commit_pin_mode`: `Ok(None)` is the null lease of an
      idle pool, `Ok(Some(batch))` hands the frozen blocks to the committing thread. */
  function Detach(s: Pool, t: ThreadId): (Pool, Outcome<Option<seq<Ptr>>, Error>) {
    if !s.pinned then (s, Ok(None))
    else if s.owner != Some(t) then (s, Throw(WrongThread))
    else (s.(pinned := false, owner := None, frozen := [], frozenSet := {}), Ok(Some(s.frozen)))
  }

  /** `release_frozen_blocks_`. */
  function Release(s: Pool, blocks: seq<Ptr>): Pool {
    s.(all := Unpin(s.all, blocks))
  }

  function Cancel(s: Pool, t: ThreadId): (Pool, Outcome<(), Error>) {
    if s.pinned && s.owner != Some(t) then (s, Throw(WrongThread))
    else (Release(s, s.frozen).(pinned := false, owner := None, frozen := [], frozenSet := {}), Ok(()))
  }

  function RetainForCapture(s: Pool, p: Ptr, t: ThreadId, faults: FreezeFaults): (Pool, Outcome<bool, Error>) {
    if !OwnsCapture(s, t) then (s, Throw(NotActive))
    else if p !in s.all then (s, Throw(NotOwned))
    else
      var (frozen, ok) := Freeze(s, p, t, faults);
      (frozen, if ok then Ok(s.all[p].generation != s.generation) else Throw(BadAlloc))
  }

  /** Bytes of all blocks that somebody pins, before any wrap-around. */
  ghost function TotalPinned(all: map<Ptr, Block>): nat {
    if all == map[] then 0
    else
      var p :| p in all;
      (if all[p].pinCount > 0 then all[p].size else 0) + TotalPinned(all - {p})
  }

  // ---------------------------------------------------------------- trim and destruction

  /** One erasing pass of `trim`: what is left of the list, what was freed, whether the pass
      reached the end instead of stopping at a failing free, and the backend afterwards. */
  datatype Pass = Pass(kept: seq<Ptr>, freed: set<Ptr>, done: bool, backend: Backend)

  function Sweep(list: seq<Ptr>, evictable: set<Ptr>, failing: set<Ptr>, b: Backend): Pass {
    if list == [] then Pass([], {}, true, b)
    else
      var p := list[0];
      if p !in evictable then
        var rest := Sweep(list[1..], evictable, failing, b);
        rest.(kept := [p] + rest.kept)
      else if p in failing then Pass(list, {}, false, Free(b, p, true))
      else
        var rest := Sweep(list[1..], evictable, failing, Free(b, p, false));
        rest.(freed := rest.freed + {p})
  }

  function Unpinned(s: Pool): set<Ptr> {
    set p | p in s.all && s.all[p].pinCount == 0
  }

  function Idle(s: Pool): set<Ptr> {
    set p | p in s.all && s.all[p].pinCount == 0 && !s.all[p].inUse
  }

  function TrimClasses(s: Pool, failing: set<Ptr>, c: nat): (Pool, bool)
    requires c <= |s.free|
    decreases |s.free| - c
  {
    if c == |s.free| then (s, true)
    else
      var pass := Sweep(s.free[c], Unpinned(s), failing, s.backend);
      var next := s.(free := s.free[c := pass.kept], all := s.all - pass.freed, backend := pass.backend);
      if pass.done then TrimClasses(next, failing, c + 1) else (next, false)
  }

  function TrimLarge(s: Pool, failing: set<Ptr>): (Pool, bool) {
    var pass := Sweep(s.large, Idle(s), failing, s.backend);
    (s.(large := pass.kept, all := s.all - pass.freed, backend := pass.backend), pass.done)
  }

  /** `trim`; `failing` are the pointers whose free the backend refuses. */
  function Trim(s: Pool, failing: set<Ptr>): (Pool, Outcome<(), Error>) {
    var (classes, ok) := TrimClasses(s, failing, 0);
    if !ok then (classes, Throw(BackendError))
    else
      var (rest, done) := TrimLarge(classes, failing);
      (rest, if done then Ok(()) else Throw(BackendError))
  }

  /** `~State`: nothing is freed unless the stream drained first; the map's order does not
      matter because its keys are distinct. */
  function Destroy(s: Pool, drained: bool, failing: set<Ptr>): Backend {
    if drained
    then Backend(s.backend.live - (s.all.Keys - failing), s.backend.misused || !(s.all.Keys <= s.backend.live))
    else s.backend
  }
}
