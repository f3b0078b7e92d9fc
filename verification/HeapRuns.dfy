/** The real operations, called in any order on any number of vectors, owner tokens and storages
    that share one heap.  Each call says what is registered and what is held afterwards, and adds
    one step to a run in the sense of `HeapOwnership`. */
module HeapRuns {
  import opened Wrappers
  import opened HeapMemory
  import opened SmallVectors
  import opened ShapeStrides
  import opened HeapOwnership
  import opened HeapSteps
  import opened CombinedLayout
  import opened TensorView

  datatype Thing =
    | AVector(v: SmallVector<int>)
    | AToken(t: HeapAllocation<int>)
    | AStorage(s: ShapeStridesStorage)

  function Ref(th: Thing): object {
    match th
    case AVector(v) => v
    case AToken(t) => t
    case AStorage(s) => s
  }

  function Refs(things: map<Id, Thing>): set<object> {
    set i | i in things :: Ref(things[i])
  }

  ghost function ViewOf(th: Thing): Object<int>
    reads Ref(th)
  {
    match th
    case AVector(v) => Vector(v.View())
    case AToken(t) => Token(t.data, t.size, t.capacity)
    case AStorage(s) => Storage(s.View())
  }

  /** On this heap, with this inline capacity: nothing here changes while the object does. */
  predicate Wired(th: Thing, memory: Memory<int>, n: nat) {
    match th
    case AVector(v) => v.memory == memory && v.n == n
    case AToken(t) => t.memory == memory
    case AStorage(s) => s.memory == memory && s.n == n && 0 < s.layout.strideAlign <= SIZE_MAX
  }

  ghost predicate AllWired(things: map<Id, Thing>, memory: Memory<int>, n: nat) {
    && 0 < n < memory.maxSize
    && (forall i :: i in things ==> Wired(things[i], memory, n))
    && (forall i, j :: i in things && j in things && i != j ==> Ref(things[i]) != Ref(things[j]))
  }

  lemma NewcomerIsWired(things: map<Id, Thing>, memory: Memory<int>, n: nat, k: Id, th: Thing)
    requires AllWired(things, memory, n) && k !in things && Wired(th, memory, n) && Ref(th) !in Refs(things)
    ensures AllWired(things[k := th], memory, n)
  {}

  lemma StaysWired(things: map<Id, Thing>, memory: Memory<int>, n: nat, i: Id)
    requires AllWired(things, memory, n)
    ensures AllWired(things - {i}, memory, n)
  {}

  ghost predicate Fits(th: Thing, maxSize: nat)
    reads Ref(th)
  {
    th.AVector? ==> th.v.capacity <= maxSize
  }

  // Construction from every kind of source; a failed one leaves the heap as it was.

  method MakeVector(memory: Memory<int>, n: nat, values: seq<int>, at: Option<Addr>)
    returns (v: SmallVector<int>, ok: bool)
    requires 0 < n < memory.maxSize && memory.Grants(|values|, at)
    modifies memory
    ensures fresh(v) && v.memory == memory && v.n == n
    ensures !ok ==> memory.blocks == old(memory.blocks)
    ensures ok ==> v.Valid() && Footprint(old(memory.blocks), memory.blocks, {}, v.Owned())
    ensures ok == (|values| <= n || at.Some?) && (ok ==> v.Contents() == values)
  {
    hide Filled, Elements, WellFormedMeta, ShapeOf, StridesOf, Footprint, Build;
    v := new SmallVector(memory, n, 0);
    ok := v.InitializeForwardRange(values, at);
  }

  method MakeFilled(memory: Memory<int>, n: nat, count: nat, value: int, at: Option<Addr>)
    returns (v: SmallVector<int>, ok: bool)
    requires 0 < n < memory.maxSize && memory.Grants(count, at)
    modifies memory
    ensures fresh(v) && v.memory == memory && v.n == n
    ensures !ok ==> memory.blocks == old(memory.blocks)
    ensures ok ==> v.Valid() && Footprint(old(memory.blocks), memory.blocks, {}, v.Owned())
    ensures ok == (count <= n || at.Some?) && (ok ==> v.Contents() == Repeat(value, count))
  {
    hide Filled, Elements, WellFormedMeta, ShapeOf, StridesOf, Footprint, Build;
    v := new SmallVector(memory, n, 0);
    ok := v.InitializeFill(count, value, at);
  }

  method MakeCounted(memory: Memory<int>, n: nat, count: nat, at: Option<Addr>)
    returns (v: SmallVector<int>, ok: bool)
    requires 0 < n < memory.maxSize && memory.Grants(count, at)
    modifies memory
    ensures fresh(v) && v.memory == memory && v.n == n
    ensures !ok ==> memory.blocks == old(memory.blocks)
    ensures ok ==> v.Valid() && Footprint(old(memory.blocks), memory.blocks, {}, v.Owned())
    ensures ok == (count <= n || at.Some?) && (ok ==> v.Contents() == Repeat(0, count))
  {
    hide Filled, Elements, WellFormedMeta, ShapeOf, StridesOf, Footprint, Build;
    v := new SmallVector(memory, n, 0);
    ok := v.InitializeCount(count, at);
  }

  method MakeFromInput(memory: Memory<int>, n: nat, values: seq<int>, grants: nat)
    returns (v: SmallVector<int>, outcome: Pushing)
    requires 0 < n < memory.maxSize
    modifies memory
    ensures fresh(v) && v.memory == memory && v.n == n
    ensures !outcome.Appended? ==> memory.blocks == old(memory.blocks)
    ensures outcome == InputOutcome(n, |values|, memory.maxSize, grants)
    ensures outcome.Appended? ==> v.Valid() && v.Contents() == values
    ensures outcome.Appended? ==> Footprint(old(memory.blocks), memory.blocks, {}, v.Owned())
  {
    hide Filled, Elements, WellFormedMeta, ShapeOf, StridesOf, Footprint, Build;
    v := new SmallVector(memory, n, 0);
    outcome := v.InitializeInputRange(values, grants);
    if !outcome.Appended? {
      GivenBack(old(memory.blocks), memory.blocks, v.Owned());
      v.Destroy();
    }
  }

  /** How construction from a range that can be read only once ends, when the allocator grants
      `grants` blocks and then no more. */
  function InputOutcome(n: nat, count: nat, maxSize: nat, grants: nat): Pushing
    requires n <= maxSize
  {
    if count <= maxSize && Growths(n, count, maxSize) <= grants then Appended
    else if count > maxSize && Growths(n, maxSize, maxSize) < grants then PastEnd
    else OutOfMemory
  }

  method MakeCopy(memory: Memory<int>, n: nat, source: SmallVector<int>, at: Option<Addr>)
    returns (v: SmallVector<int>, ok: bool)
    requires 0 < n < memory.maxSize && memory.Grants(source.capacity, at)
    requires source.memory == memory && source.n == n && source.Valid()
    modifies memory
    ensures fresh(v) && v.memory == memory && v.n == n
    ensures !ok ==> memory.blocks == old(memory.blocks)
    ensures ok ==> v.Valid() && Footprint(old(memory.blocks), memory.blocks, {}, v.Owned())
    ensures ok == (!source.IsHeap() || at.Some?)
    ensures ok ==> source.Valid() && v.Contents() == source.Contents()
  {
    hide Filled, Elements, WellFormedMeta, ShapeOf, StridesOf, Footprint, Build;
    v := new SmallVector(memory, n, 0);
    ok := v.CopyConstructFrom(source, at);
  }

  method MakeStorage(memory: Memory<int>, n: nat, shape: seq<int>, strides: seq<int>, layout: Layout, faulty: bool,
                     at: Option<Addr>)
    returns (s: ShapeStridesStorage, status: Status)
    requires 0 < n && 0 < layout.strideAlign <= SIZE_MAX && memory.Answers(at)
    modifies memory
    ensures fresh(s) && s.memory == memory && s.n == n && s.layout == layout
    ensures !status.Done? ==> memory.blocks == old(memory.blocks)
    ensures status.Done? ==> s.Valid() && Footprint(old(memory.blocks), memory.blocks, {}, s.Owned())
    ensures status.Done? ==> s.Shape() == shape && s.Strides() == strides
    ensures status == Build(shape, strides, n, layout, faulty, at)
  {
    hide Filled, Elements, WellFormedMeta, ShapeOf, StridesOf, Footprint, Build;
    s := new ShapeStridesStorage(memory, n, layout);
    status := s.Initialize(shape, strides, faulty, at);
  }

  method MakeDefault(memory: Memory<int>, n: nat, shape: seq<nat>, layout: Layout, at: Option<Addr>)
    returns (s: ShapeStridesStorage, status: Status)
    requires 0 < n && 0 < layout.strideAlign <= SIZE_MAX && memory.Answers(at)
    modifies memory
    ensures fresh(s) && s.memory == memory && s.n == n && s.layout == layout
    ensures !status.Done? ==> memory.blocks == old(memory.blocks)
    ensures status.Done? ==> s.Valid() && Footprint(old(memory.blocks), memory.blocks, {}, s.Owned())
    ensures status.Done? ==> s.Shape() == shape && s.Strides() == DefaultStrides(shape)
    ensures status == Build(shape, DefaultStrides(shape), n, layout, false, at)
  {
    hide Filled, Elements, WellFormedMeta, ShapeOf, StridesOf, Footprint, Build;
    s := new ShapeStridesStorage(memory, n, layout);
    status := s.InitializeDefaultStrides(shape, at);
  }

  method MakeStorageCopy(memory: Memory<int>, n: nat, source: ShapeStridesStorage, at: Option<Addr>)
    returns (s: ShapeStridesStorage, status: Status)
    requires 0 < n && memory.Answers(at)
    requires source.memory == memory && source.n == n && source.Valid()
    modifies memory
    ensures fresh(s) && s.memory == memory && s.n == n && s.layout == source.layout
    ensures !status.Done? ==> memory.blocks == old(memory.blocks)
    ensures status.Done? ==> s.Valid() && Footprint(old(memory.blocks), memory.blocks, {}, s.Owned())
    ensures source.Valid() && source.Shape() == old(source.Shape()) && source.Strides() == old(source.Strides())
    ensures status == Build(source.Shape(), source.Strides(), n, source.layout, false, at)
    ensures status.Done? ==> s.Shape() == source.Shape() && s.Strides() == source.Strides()
  {
    hide Filled, Elements, WellFormedMeta, ShapeOf, StridesOf, Footprint, Build;
    s := new ShapeStridesStorage(memory, n, source.layout);
    status := s.CopyConstructFrom(source, at);
  }

  lemma RunShape(worlds: seq<World<int>>, acting: seq<set<Id>>, n: nat)
    requires Run(worlds, acting, n)
    ensures |worlds| == |acting| + 1
  {}

  class Arena {
    const memory: Memory<int>
    const n: nat
    var things: map<Id, Thing>
    ghost var worlds: seq<World<int>>
    ghost var acting: seq<set<Id>>

    constructor (memory: Memory<int>, n: nat)
      requires memory.blocks == map[] && 0 < n < memory.maxSize
      ensures Valid() && things == map[] && this.memory == memory && this.n == n
      ensures worlds == [Now()] && acting == []
    {
      this.memory, this.n, things := memory, n, map[];
      worlds, acting := [World(map[], map[])], [];
    }

    ghost function Objects(): (objects: map<Id, Object<int>>)
      reads `things, Refs(things)
      ensures objects.Keys == things.Keys
    {
      map i | i in things :: ViewOf(things[i])
    }

    ghost function Now(): World<int>
      reads `things, memory, Refs(things)
    {
      World(memory.blocks, Objects())
    }

    ghost predicate Linked()
      reads `things, Refs(things)
    {
      AllWired(things, memory, n) && forall i :: i in things ==> Fits(things[i], memory.maxSize)
    }

    ghost predicate Intact()
      reads `things, memory, Refs(things)
    {
      Linked() && Sound(Now(), n)
    }

    /** The operations so far are a run from the empty heap to `w`. */
    ghost predicate HistoryTo(w: World<int>)
      reads `worlds, `acting
    {
      Run(worlds, acting, n) && worlds[0] == World(map[], map[]) && worlds[|acting|] == w
    }

    ghost predicate Valid()
      reads this, memory, Refs(things)
    {
      Intact() && HistoryTo(Now())
    }

    /** One more operation of the run. */
    twostate predicate Did(new ids: set<Id>)
      reads this, memory, Refs(things)
    {
      && Operation(old(Now()), Now(), ids, n)
      && worlds == old(worlds) + [Now()] && acting == old(acting) + [ids]
    }

    lemma HoldsVector(i: Id)
      requires Intact() && i in things && things[i].AVector?
      ensures things[i].v.Valid() && Holds(i) == (things[i].v.Contents(), [])
    {
      assert Objects()[i] == ViewOf(things[i]) && Wired(things[i], memory, n) && Fits(things[i], memory.maxSize);
    }

    lemma HoldsToken(i: Id)
      requires Intact() && i in things && things[i].AToken?
      ensures var t := things[i].t;
        && t.memory == memory && t.Valid()
        && Holds(i) == (if t.data == 0 then [] else Values(memory.blocks[t.data].cells, t.size), [])
    {
      assert Objects()[i] == ViewOf(things[i]) && Wired(things[i], memory, n);
      var t := things[i].t;
      if t.data != 0 {
        assert memory.blocks[t.data].cells[0..] == memory.blocks[t.data].cells;
      }
    }

    lemma HoldsStorage(i: Id)
      requires Intact() && i in things && things[i].AStorage?
      ensures things[i].s.Valid() && Holds(i) == (things[i].s.Shape(), things[i].s.Strides())
    {
      assert Objects()[i] == ViewOf(things[i]) && Wired(things[i], memory, n);
    }

    /** A thing that was not there before has entered the register; all others stay. */
    twostate predicate Entered(new k: Id)
      reads `things
    {
      k in things && things == old(things)[k := things[k]] && fresh(Ref(things[k]))
    }

    twostate predicate StorageEntered(new k: Id, layout: Layout)
      reads `things
    {
      Entered(k) && things[k].AStorage? && things[k].s.layout == layout
    }

    /** The newcomer `k` holds what `i` held, which holds nothing any more. */
    twostate predicate Moved(new k: Id, new i: Id)
      requires old(Intact()) && i in old(things)
      reads `things, memory, Refs(things)
    {
      && Entered(k) && i in things && Intact()
      && Holds(k) == old(Holds(i)) && Holds(i) == ([], [])
    }

    lemma IsNoThing()
      ensures this !in Refs(things)
    {}

    ghost method Note(before: World<int>, ids: set<Id>)
      requires Intact() && HistoryTo(before) && Operation(before, Now(), ids, n)
      modifies `worlds, `acting
      ensures Valid() && Now() == old(Now())
      ensures worlds == old(worlds) + [Now()] && acting == old(acting) + [ids]
      ensures forall i :: i in things ==> Holds(i) == old(Holds(i))
    {
      hide Intact, Now, Operation, Run;
      ghost var w := Now();
      IsNoThing();
      RunExtends(worlds, acting, w, ids, n);
      RunShape(worlds, acting, n);
      RunShape(worlds + [w], acting + [ids], n);
      worlds, acting := worlds + [w], acting + [ids];
    }

    /** What can be read through a registered thing. */
    ghost function Holds(i: Id): (seq<int>, seq<int>)
      requires Intact() && i in things
      reads `things, memory, Refs(things)
    {
      assert Objects()[i] == ViewOf(things[i]);
      Reads(Objects()[i], n, memory.blocks)
    }

    /** A thing of a valid arena can be used, whatever its class. */
    ghost predicate Usable(th: Thing)
      reads Ref(th), memory
    {
      match th
      case AVector(v) => v.memory == memory && v.n == n && v.Valid()
      case AToken(t) => t.memory == memory && t.Valid()
      case AStorage(s) => s.memory == memory && s.n == n && s.Valid()
    }

    function Owned(th: Thing): set<Addr>
      reads Ref(th)
    {
      match th
      case AVector(v) => v.Owned()
      case AToken(t) => t.Owned()
      case AStorage(s) => s.Owned()
    }

    lemma IsUsable(i: Id)
      requires Intact() && i in things
      ensures Usable(things[i]) && Ref(things[i]) != this && Ref(things[i]) != memory
      ensures forall j :: j in things && j != i ==> Ref(things[j]) != Ref(things[i])
      ensures Owned(things[i]) <= memory.blocks.Keys
    {
      assert Objects()[i] == ViewOf(things[i]);
      assert Complete(Objects()[i], n, memory.blocks) && Wired(things[i], memory, n) && Fits(things[i], memory.maxSize);
    }

    lemma HasRoom()
      requires Intact()
      ensures 0 < n < memory.maxSize
    {}

    lemma AreApart(i: Id, j: Id)
      requires Intact() && i in things && j in things
      ensures i != j ==> Owned(things[i]) !! Owned(things[j])
    {
      assert i != j ==> Owns(Objects()[i], n) !! Owns(Objects()[j], n);
    }

    twostate lemma StillLinked(new i: Id, new j: Id)
      requires old(Linked()) && things == old(things) && i in things && j in things
      requires forall x :: x in things && x != i && x != j ==> ViewOf(things[x]) == old(ViewOf(things[x]))
      requires Fits(things[i], memory.maxSize)
      requires Fits(things[j], memory.maxSize)
      ensures Linked()
    {
      hide AllWired, Ref, Refs;
      forall x | x in things ensures Fits(things[x], memory.maxSize) {
        if x != i && x != j {
          FitsByView(things[x]);
          FittedByView(x);
        }
      }
    }

    lemma FitsByView(th: Thing)
      ensures Fits(th, memory.maxSize) <==> (ViewOf(th).Vector? ==> ViewOf(th).v.capacity <= memory.maxSize)
    {}

    twostate lemma FittedByView(i: Id)
      requires i in old(things)
      ensures old(Fits(things[i], memory.maxSize))
              <==> (old(ViewOf(things[i])).Vector? ==> old(ViewOf(things[i])).v.capacity <= memory.maxSize)
    {}

    /** Things `i` and `j` (which may be one) have acted in their own blocks. */
    twostate lemma ActedInPlace(new i: Id, new j: Id, new gave: set<Addr>, new holds: set<Addr>)
      requires old(Intact()) && things == old(things) && i in things && j in things
      requires forall x :: x in things && x != i && x != j ==> ViewOf(things[x]) == old(ViewOf(things[x]))
      requires Usable(things[i])
      requires Usable(things[j])
      requires i != j ==> Owned(things[i]) !! Owned(things[j])
      requires gave == old(Owned(things[i]) + Owned(things[j])) && holds == Owned(things[i]) + Owned(things[j])
      requires Footprint(old(memory.blocks), memory.blocks, gave, holds)
      ensures Intact() && Operation(old(Now()), Now(), {i, i, j}, n)
    {
      hide Sound, Operation, Footprint, Complete, Owns, AllWired, Usable, Owned, Refs, Ref, ViewOf, Fits;
      UsableIsComplete(things[i]);
      UsableIsComplete(things[j]);
      OwnedWasOwns(i);
      OwnedWasOwns(j);
      StillLinked(i, j);
      ActTogether(old(Now()), Now(), i, i, j, n, gave, holds);
    }

    lemma UsableIsComplete(th: Thing)
      requires Usable(th)
      ensures Complete(ViewOf(th), n, memory.blocks) && Fits(th, memory.maxSize)
      ensures Owned(th) == Owns(ViewOf(th), n)
    {}

    twostate lemma OwnedWasOwns(i: Id)
      requires old(Linked()) && i in old(things)
      ensures old(Owned(things[i])) == Owns(old(ViewOf(things[i])), n)
    {
      assert Wired(old(things)[i], memory, n);
    }

    twostate lemma ViewsUnchanged()
      requires old(Linked()) && things == old(things)
      requires forall x :: x in things ==> ViewOf(things[x]) == old(ViewOf(things[x]))
      ensures Linked() && Objects() == old(Objects())
    {
      hide AllWired, Ref, Refs, Fits, ViewOf;
      forall x | x in things ensures Fits(things[x], memory.maxSize) {
        FitsByView(things[x]);
        FittedByView(x);
      }
    }

    /** Vectors `i` and `j` (which may be one) were about to act, and nothing came of it. */
    twostate lemma GaveNothing(new i: Id, new j: Id)
      requires old(Linked()) && things == old(things) && i in things && j in things
      requires things[i].AVector? && things[j].AVector?
      requires things[i].v.View() == old(things[i].v.View()) && things[j].v.View() == old(things[j].v.View())
      requires forall x :: x in things && x != i && x != j ==> ViewOf(things[x]) == old(ViewOf(things[x]))
      ensures Linked() && Objects() == old(Objects())
    {
      forall x | x in things ensures ViewOf(things[x]) == old(ViewOf(things[x])) {}
      ViewsUnchanged();
    }

    /** Thing `th` is new; `i` and `j` may have handed blocks over to it. */
    twostate lemma ArrivedTogether(new k: Id, new th: Thing, new i: Id, new j: Id, new gave: set<Addr>,
                                   new holds: set<Addr>)
      requires old(Intact()) && things == old(things) && k !in things && i in things && j in things
      requires forall x :: x in things && x != i && x != j ==> ViewOf(things[x]) == old(ViewOf(things[x]))
      requires Usable(things[i])
      requires Usable(things[j])
      requires Usable(th)
      requires i != j ==> Owned(things[i]) !! Owned(things[j])
      requires Owned(th) !! Owned(things[i]) && Owned(th) !! Owned(things[j])
      requires gave == old(Owned(things[i]) + Owned(things[j]))
      requires holds == Owned(things[i]) + Owned(things[j]) + Owned(th)
      requires Footprint(old(memory.blocks), memory.blocks, gave, holds)
      ensures Linked() && Joins(old(Now()), Now(), i, j, k, ViewOf(th), n)
    {
      hide Sound, Footprint, Complete, Owns, AllWired, Usable, Owned, Refs, Ref, ViewOf, Fits;
      UsableIsComplete(things[i]);
      UsableIsComplete(things[j]);
      UsableIsComplete(th);
      OwnedWasOwns(i);
      OwnedWasOwns(j);
      StillLinked(i, j);
    }

    /** Thing `th` is new and has taken over everything `i` owned. */
    twostate lemma ArrivedAsHeir(new k: Id, new th: Thing, new i: Id, new gave: set<Addr>)
      requires old(Intact()) && things == old(things) && k !in things && i in things
      requires forall x :: x in things && x != i ==> ViewOf(things[x]) == old(ViewOf(things[x]))
      requires Usable(things[i])
      requires Usable(th)
      requires memory.blocks == old(memory.blocks) && gave == old(Owned(things[i])) <= memory.blocks.Keys
      requires Owned(things[i]) == {} && Owned(th) == gave
      ensures Linked() && Joins(old(Now()), Now(), i, i, k, ViewOf(th), n)
    {
      hide Sound, Complete, Owns, AllWired, Usable, Owned, Refs, Ref, ViewOf, Fits;
      UsableIsComplete(things[i]);
      UsableIsComplete(th);
      OwnedWasOwns(i);
      StillLinked(i, i);
      HeirJoins(old(Now()), Now(), i, i, k, ViewOf(th), n);
    }

    /** A new thing enters the register. */
    method Register(k: Id, th: Thing, ghost i: Id, ghost j: Id, ghost before: World<int>)
      requires Linked() && Sound(before, n) && k !in things
      requires Wired(th, memory, n) && Fits(th, memory.maxSize) && Ref(th) !in Refs(things)
      requires Joins(before, Now(), i, j, k, ViewOf(th), n)
      modifies `things
      ensures things == old(things)[k := th]
      ensures Intact() && Operation(before, Now(), {i, j, k}, n)
    {
      hide Sound, Operation, Joins, AllWired;
      ghost var mid := Now();
      JoiningIsOperation(before, mid, i, j, k, ViewOf(th), n);
      NewcomerIsWired(things, memory, n, k, th);
      things := things[k := th];
      assert Objects() == mid.objects[k := ViewOf(th)];
    }

    /** A new thing with fresh blocks only. */
    method Admit(k: Id, th: Thing, ghost before: World<int>)
      requires Linked() && Sound(before, n) && Objects() == before.objects && k !in things
      requires Usable(th) && Wired(th, memory, n) && Ref(th) !in Refs(things)
      requires Footprint(before.blocks, memory.blocks, {}, Owned(th))
      modifies `things
      ensures things == old(things)[k := th]
      ensures Intact() && Operation(before, Now(), {k, k, k}, n)
    {
      hide Sound, Operation, Joins, AllWired, Footprint, Usable, Owned, Fits, Complete, Owns;
      UsableIsComplete(th);
      FreshJoins(before, Now(), k, k, k, ViewOf(th), n);
      Register(k, th, k, k, before);
    }

    /** Thing `i` has given up its blocks and is forgotten next. */
    twostate lemma Left(new i: Id, new gave: set<Addr>)
      requires old(Intact()) && things == old(things) && i in things
      requires forall x :: x in things && x != i ==> ViewOf(things[x]) == old(ViewOf(things[x]))
      requires Fits(things[i], memory.maxSize)
      requires gave == old(Owned(things[i])) && Footprint(old(memory.blocks), memory.blocks, gave, {})
      ensures Linked()
      ensures var w := World(memory.blocks, Objects() - {i});
        Operation(old(Now()), w, {i, i, i}, n) && Sound(w, n)
    {
      hide Sound, Operation, Footprint, Complete, Owns, AllWired, Usable, Owned, Refs, Ref, ViewOf, Fits;
      OwnedWasOwns(i);
      StillLinked(i, i);
      LeavingIsOperation(old(Now()), Now(), i, n);
    }

    method Unregister(i: Id)
      requires Linked() && i in things && Sound(World(memory.blocks, Objects() - {i}), n)
      modifies `things
      ensures things == old(things) - {i}
      ensures Intact() && Now() == World(memory.blocks, old(Objects()) - {i})
    {
      hide Sound, Operation, AllWired;
      ghost var objects := Objects();
      StaysWired(things, memory, n, i);
      things := things - {i};
      assert Objects() == objects - {i};
    }

    // ---------------------------------------------------------------------------- vectors

    method NewVector(k: Id, values: seq<int>, at: Option<Addr>) returns (ok: bool)
      requires Valid() && k !in things
      requires memory.Grants(|values|, at)
      modifies this, memory
      ensures Valid() && Did({k})
      ensures ok == (|values| <= n || at.Some?)
      ensures if ok then Entered(k) && things[k].AVector? && Holds(k) == (values, [])
              else things == old(things) && Now() == old(Now())
    {
      hide HistoryTo, Holds, Linked, Sound, Operation, Footprint, Joins;
      HasRoom();
      ghost var before := Now();
      var v;
      v, ok := MakeVector(memory, n, values, at);
      ViewsUnchanged();
      if ok {
        Admit(k, AVector(v), before);
        HoldsVector(k);
      } else {
        NothingHappens(before, k, k, k, n);
      }
      assert {k, k, k} == {k};
      Note(before, {k});
    }

    method NewFilledVector(k: Id, count: nat, value: int, at: Option<Addr>) returns (ok: bool)
      requires Valid() && k !in things
      requires memory.Grants(count, at)
      modifies this, memory
      ensures Valid() && Did({k})
      ensures ok == (count <= n || at.Some?)
      ensures if ok then Entered(k) && things[k].AVector? && Holds(k) == (Repeat(value, count), [])
              else things == old(things) && Now() == old(Now())
    {
      hide HistoryTo, Holds, Linked, Sound, Operation, Footprint, Joins;
      hide WellFormed, WellFormedMeta, Elements, ShapeOf, StridesOf;
      HasRoom();
      ghost var before := Now();
      var v;
      v, ok := MakeFilled(memory, n, count, value, at);
      ViewsUnchanged();
      if ok {
        Admit(k, AVector(v), before);
        HoldsVector(k);
      } else {
        NothingHappens(before, k, k, k, n);
      }
      assert {k, k, k} == {k};
      Note(before, {k});
    }

    method NewCountedVector(k: Id, count: nat, at: Option<Addr>) returns (ok: bool)
      requires Valid() && k !in things
      requires memory.Grants(count, at)
      modifies this, memory
      ensures Valid() && Did({k})
      ensures ok == (count <= n || at.Some?)
      ensures if ok then Entered(k) && things[k].AVector? && Holds(k) == (Repeat(0, count), [])
              else things == old(things) && Now() == old(Now())
    {
      hide HistoryTo, Holds, Linked, Sound, Operation, Footprint, Joins;
      hide WellFormed, WellFormedMeta, Elements, ShapeOf, StridesOf;
      HasRoom();
      ghost var before := Now();
      var v;
      v, ok := MakeCounted(memory, n, count, at);
      ViewsUnchanged();
      if ok {
        Admit(k, AVector(v), before);
        HoldsVector(k);
      } else {
        NothingHappens(before, k, k, k, n);
      }
      assert {k, k, k} == {k};
      Note(before, {k});
    }

    /** A range that can be read only once; what was built so far is destroyed on failure. */
    method NewInputVector(k: Id, values: seq<int>, grants: nat) returns (outcome: Pushing)
      requires Valid() && k !in things
      modifies this, memory
      ensures Valid() && Did({k})
      ensures outcome == InputOutcome(n, |values|, memory.maxSize, grants)
      ensures if outcome.Appended? then Entered(k) && things[k].AVector? && Holds(k) == (values, [])
              else things == old(things) && Now() == old(Now())
    {
      hide HistoryTo, Holds, Linked, Sound, Operation, Footprint, Joins;
      HasRoom();
      ghost var before := Now();
      var v;
      v, outcome := MakeFromInput(memory, n, values, grants);
      ViewsUnchanged();
      if outcome.Appended? {
        Admit(k, AVector(v), before);
        HoldsVector(k);
      } else {
        NothingHappens(before, k, k, k, n);
      }
      assert {k, k, k} == {k};
      Note(before, {k});
    }

    method CopyVector(k: Id, i: Id, at: Option<Addr>) returns (ok: bool)
      requires Valid() && k !in things
      requires i in things && things[i].AVector? && memory.Grants(things[i].v.capacity, at)
      modifies this, memory
      ensures Valid() && Did({k})
      ensures ok == (!old(things[i].v.IsHeap()) || at.Some?)
      ensures if ok then Entered(k) && things[k].AVector? && Holds(k) == Holds(i)
              else things == old(things) && Now() == old(Now())
    {
      hide HistoryTo, Holds, Linked, Sound, Operation, Footprint, Joins;
      hide WellFormed, WellFormedMeta, Elements, ShapeOf, StridesOf;
      HasRoom();
      IsUsable(i);
      var source := things[i].v;
      ghost var before := Now();
      var v;
      v, ok := MakeCopy(memory, n, source, at);
      ViewsUnchanged();
      if ok {
        Admit(k, AVector(v), before);
        HoldsVector(k);
        HoldsVector(i);
      } else {
        NothingHappens(before, k, k, k, n);
      }
      assert {k, k, k} == {k};
      Note(before, {k});
    }

    method VectorFrom(source: SmallVector<int>) returns (v: SmallVector<int>)
      requires source.n == n && 0 < n < memory.maxSize && source.memory == memory && source.Valid()
      modifies source, memory
      ensures fresh(v) && v.memory == memory && v.Valid() && v.Owned() == old(source.Owned())
      ensures v.Contents() == old(source.Contents()) && source.Valid() && source.Contents() == []
      ensures source.Valid() && source.Owned() == {} && v.n == n && memory.blocks == old(memory.blocks)
    {
      v := new SmallVector(memory, n, 0);
      v.MoveConstructFrom(source);
    }

    method MoveVector(k: Id, i: Id)
      requires Valid() && k !in things && i in things && things[i].AVector?
      modifies this, memory, things[i].v
      ensures Valid() && Did({i, k})
      ensures Moved(k, i) && things[k].AVector?
    {
      hide HistoryTo, Holds, Linked, ViewOf, Sound, Operation, Footprint, Joins;
      hide WellFormed, WellFormedMeta, Elements, ShapeOf, StridesOf;
      HasRoom();
      IsUsable(i);
      ghost var before := Now();
      HoldsVector(i);
      var source := things[i].v;
      ghost var gave := source.Owned();
      var v := VectorFrom(source);
      ArrivedAsHeir(k, AVector(v), i, gave);
      Register(k, AVector(v), i, i, before);
      HoldsVector(i);
      HoldsVector(k);
      assert {i, i, k} == {i, k};
      Note(before, {i, k});
    }

    method CopyAssign(i: Id, j: Id, at: Option<Addr>) returns (ok: bool)
      requires Valid() && i in things && j in things && things[i].AVector? && things[j].AVector?
      requires memory.Grants(things[j].v.capacity, at)
      modifies `worlds, `acting, memory, things[i].v
      ensures Valid() && Did({i})
      ensures ok == (i == j || !old(things[j].v.IsHeap()) || at.Some?)
      ensures Holds(i) == if ok then old(Holds(j)) else old(Holds(i))
    {
      hide HistoryTo, Holds, Linked, ViewOf, Sound, Operation, Footprint, Joins;
      hide WellFormed, WellFormedMeta, Elements, ShapeOf, StridesOf;
      ghost var before := Now();
      HoldsVector(i);
      HoldsVector(j);
      IsUsable(i);
      IsUsable(j);
      AreApart(i, j);
      var v, other := things[i].v, things[j].v;
      ok := v.CopyAssign(other, at);
      ActedInPlace(i, i, old(v.Owned()), v.Owned());
      HoldsVector(i);
      assert {i, i, i} == {i};
      Note(before, {i});
    }

    method MoveAssign(i: Id, j: Id)
      requires Valid() && i in things && j in things && things[i].AVector? && things[j].AVector?
      modifies `worlds, `acting, memory, things[i].v, things[j].v
      ensures Valid() && Did({i, j})
      ensures Holds(i) == old(Holds(j)) && (i != j ==> Holds(j) == ([], []))
    {
      hide HistoryTo, Holds, Linked, ViewOf, Sound, Operation, Footprint, Joins;
      ghost var before := Now();
      HoldsVector(i);
      HoldsVector(j);
      IsUsable(i);
      IsUsable(j);
      AreApart(i, j);
      var v, other := things[i].v, things[j].v;
      v.MoveAssign(other);
      ActedInPlace(i, j, old(v.Owned() + other.Owned()), v.Owned() + other.Owned());
      HoldsVector(i);
      HoldsVector(j);
      assert {i, i, j} == {i, j};
      Note(before, {i, j});
    }

    method Assign(i: Id, values: seq<int>, at: Option<Addr>) returns (ok: bool)
      requires Valid() && i in things && things[i].AVector?
      requires memory.Grants(|values|, at)
      modifies `worlds, `acting, memory, things[i].v
      ensures Valid() && Did({i})
      ensures ok == (|values| <= n || at.Some?) && Holds(i) == if ok then (values, []) else old(Holds(i))
    {
      hide HistoryTo, Holds, Linked, ViewOf, Sound, Operation, Footprint, Joins;
      ghost var before := Now();
      HoldsVector(i);
      IsUsable(i);
      var v := things[i].v;
      ok := v.Assign(values, at);
      ActedInPlace(i, i, old(v.Owned()), v.Owned());
      HoldsVector(i);
      assert {i, i, i} == {i};
      Note(before, {i});
    }

    method PushBack(i: Id, value: Reference<int>, at: Option<Addr>) returns (outcome: Pushing)
      requires Valid() && i in things && things[i].AVector?
      requires things[i].v.Readable(value) && things[i].v.capacity <= memory.maxSize
      requires memory.Grants(Grown(things[i].v.capacity, memory.maxSize), at)
      modifies `worlds, `acting, memory, things[i].v
      ensures Valid() && Did({i})
      ensures outcome == if old(things[i].v.size) == old(things[i].v.capacity) && at.None? then OutOfMemory
                         else if old(things[i].v.size) < memory.maxSize then Appended else PastEnd
      ensures Holds(i) == if outcome.Appended? then (old(Holds(i)).0 + [old(things[i].v.Deref(value))], [])
                          else old(Holds(i))
    {
      hide HistoryTo, Holds, Linked, ViewOf, Sound, Operation, Footprint, Joins;
      ghost var before := Now();
      HoldsVector(i);
      IsUsable(i);
      var v := things[i].v;
      outcome := v.PushBack(value, at);
      ActedInPlace(i, i, old(v.Owned()), v.Owned());
      HoldsVector(i);
      assert {i, i, i} == {i};
      Note(before, {i});
    }

    method Reserve(i: Id, requested: nat, at: Option<Addr>) returns (ok: bool)
      requires Valid() && i in things && things[i].AVector?
      requires memory.Grants(requested, at)
      modifies `worlds, `acting, memory, things[i].v
      ensures Valid() && Did({i})
      ensures ok == (requested <= old(things[i].v.capacity) || at.Some?) && Holds(i) == old(Holds(i))
      ensures things[i].v.capacity ==
        if ok && requested > old(things[i].v.capacity) then requested else old(things[i].v.capacity)
    {
      hide HistoryTo, Holds, Linked, ViewOf, Sound, Operation, Footprint, Joins;
      ghost var before := Now();
      HoldsVector(i);
      IsUsable(i);
      var v := things[i].v;
      ok := v.Reserve(requested, at);
      ActedInPlace(i, i, old(v.Owned()), v.Owned());
      HoldsVector(i);
      assert {i, i, i} == {i};
      Note(before, {i});
    }

    method Resize(i: Id, count: nat, at: Option<Addr>) returns (ok: bool)
      requires Valid() && i in things && things[i].AVector?
      requires memory.Grants(count, at)
      modifies `worlds, `acting, memory, things[i].v
      ensures Valid() && Did({i})
      ensures ok == (count <= old(things[i].v.capacity) || at.Some?)
      ensures var was := old(Holds(i)).0;
        Holds(i).0 == if !ok then was else if count <= |was| then was[..count]
                      else was + Repeat(things[i].v.zero, count - |was|)
    {
      hide HistoryTo, Holds, Linked, ViewOf, Sound, Operation, Footprint, Joins;
      hide WellFormed, WellFormedMeta, Elements, ShapeOf, StridesOf;
      ghost var before := Now();
      HoldsVector(i);
      IsUsable(i);
      var v := things[i].v;
      ok := v.Resize(count, at);
      ActedInPlace(i, i, old(v.Owned()), v.Owned());
      HoldsVector(i);
      assert {i, i, i} == {i};
      Note(before, {i});
    }

    method Clear(i: Id)
      requires Valid() && i in things && things[i].AVector?
      modifies `worlds, `acting, things[i].v
      ensures Valid() && Did({i})
      ensures Holds(i) == ([], [])
    {
      hide HistoryTo, Holds, Linked, ViewOf, Sound, Operation, Footprint, Joins;
      ghost var before := Now();
      HoldsVector(i);
      IsUsable(i);
      var v := things[i].v;
      v.Clear();
      KeepsBlocks(memory.blocks, v.Owned());
      ActedInPlace(i, i, v.Owned(), v.Owned());
      HoldsVector(i);
      assert {i, i, i} == {i};
      Note(before, {i});
    }

    /** Writing elements through `data()`. */
    method Overwrite(i: Id, values: seq<int>)
      requires Valid() && i in things && things[i].AVector?
      requires |values| == things[i].v.size
      modifies `worlds, `acting, memory, things[i].v
      ensures Valid() && Did({i})
      ensures Holds(i) == (values, [])
    {
      hide HistoryTo, Holds, Linked, ViewOf, Sound, Operation, Footprint, Joins;
      ghost var before := Now();
      HoldsVector(i);
      IsUsable(i);
      var v := things[i].v;
      v.Overwrite(values);
      ActedInPlace(i, i, old(v.Owned()), v.Owned());
      HoldsVector(i);
      assert {i, i, i} == {i};
      Note(before, {i});
    }

    /** A heap block leaves the vector with a token; an inline vector gives an empty one. */
    method ReleaseHeap(k: Id, i: Id)
      requires Valid() && k !in things && i in things && things[i].AVector?
      modifies this, things[i].v
      ensures Valid() && Did({i, k})
      ensures Entered(k) && things[k].AToken?
      ensures if old(things[i].v.IsHeap()) then Moved(k, i) else Holds(k) == ([], []) && Holds(i) == old(Holds(i))
    {
      hide HistoryTo, Holds, Linked, ViewOf, Sound, Operation, Footprint, Joins;
      IsUsable(i);
      ghost var before := Now();
      HoldsVector(i);
      var v := things[i].v;
      ghost var gave := v.Owned();
      var t := v.ReleaseHeap();
      ArrivedAsHeir(k, AToken(t), i, gave);
      Register(k, AToken(t), i, i, before);
      HoldsVector(i);
      HoldsToken(k);
      assert {i, i, k} == {i, k};
      Note(before, {i, k});
    }

    method DropVector(i: Id)
      requires Valid() && i in things && things[i].AVector?
      modifies this, memory
      ensures Valid() && Did({i}) && things == old(things) - {i}
    {
      hide HistoryTo, Holds, Linked, ViewOf, Sound, Operation, Footprint, Joins;
      ghost var before := Now();
      IsUsable(i);
      var v := things[i].v;
      GivesUp(memory.blocks, v.Owned());
      v.Destroy();
      Left(i, old(v.Owned()));
      Unregister(i);
      assert {i, i, i} == {i};
      Note(before, {i});
    }

    // ------------------------------------------------------------------------ owner tokens

    method TokenFrom(source: HeapAllocation<int>) returns (t: HeapAllocation<int>)
      requires source.memory == memory && source.Valid()
      modifies source
      ensures fresh(t) && t.memory == memory && t.Valid() && t.Owned() == old(source.Owned())
      ensures t.data == old(source.data) && t.size == old(source.size) && source.data == 0
      ensures source.Valid() && source.Owned() == {}
    {
      t := new HeapAllocation(memory, 0, 0, 0);
      t.MoveConstructFrom(source);
    }

    method MoveToken(k: Id, i: Id)
      requires Valid() && k !in things && i in things && things[i].AToken?
      modifies this, things[i].t
      ensures Valid() && Did({i, k})
      ensures Moved(k, i) && things[k].AToken?
    {
      hide HistoryTo, Holds, Linked, ViewOf, Sound, Operation, Footprint, Joins;
      IsUsable(i);
      ghost var before := Now();
      HoldsToken(i);
      var source := things[i].t;
      ghost var gave := source.Owned();
      var t := TokenFrom(source);
      ArrivedAsHeir(k, AToken(t), i, gave);
      Register(k, AToken(t), i, i, before);
      HoldsToken(i);
      HoldsToken(k);
      assert {i, i, k} == {i, k};
      Note(before, {i, k});
    }

    method MoveAssignToken(i: Id, j: Id)
      requires Valid() && i in things && j in things && things[i].AToken? && things[j].AToken?
      modifies `worlds, `acting, memory, things[i].t, things[j].t
      ensures Valid() && Did({i, j})
      ensures Holds(i) == old(Holds(j)) && (i != j ==> Holds(j) == ([], []))
    {
      hide HistoryTo, Holds, Linked, ViewOf, Sound, Operation, Joins;
      ghost var before := Now();
      HoldsToken(i);
      HoldsToken(j);
      IsUsable(i);
      IsUsable(j);
      AreApart(i, j);
      var t, other := things[i].t, things[j].t;
      t.MoveAssign(other);
      ActedInPlace(i, j, old(t.Owned() + other.Owned()), t.Owned() + other.Owned());
      HoldsToken(i);
      HoldsToken(j);
      assert {i, i, j} == {i, j};
      Note(before, {i, j});
    }

    method DropToken(i: Id)
      requires Valid() && i in things && things[i].AToken?
      modifies this, memory, things[i].t
      ensures Valid() && Did({i}) && things == old(things) - {i}
    {
      hide HistoryTo, Holds, Linked, ViewOf, Sound, Operation, Footprint, Joins;
      ghost var before := Now();
      IsUsable(i);
      var t := things[i].t;
      GivesUp(memory.blocks, t.Owned());
      t.Reset();
      Left(i, old(t.Owned()));
      Unregister(i);
      assert {i, i, i} == {i};
      Note(before, {i});
    }

    // -------------------------------------------------------------------- metadata storage

    method NewStorage(k: Id, shape: seq<int>, strides: seq<int>, layout: Layout, faulty: bool, at: Option<Addr>)
      returns (status: Status)
      requires Valid() && k !in things
      requires 0 < layout.strideAlign <= SIZE_MAX && memory.Answers(at)
      modifies this, memory
      ensures Valid() && Did({k})
      ensures status == Build(shape, strides, n, layout, faulty, at)
      ensures if status.Done? then StorageEntered(k, layout) && Holds(k) == (shape, strides)
              else things == old(things) && Now() == old(Now())
    {
      hide HistoryTo, Holds, Linked, Sound, Operation, Footprint, Joins;
      HasRoom();
      ghost var before := Now();
      var s;
      s, status := MakeStorage(memory, n, shape, strides, layout, faulty, at);
      ViewsUnchanged();
      if status.Done? {
        Admit(k, AStorage(s), before);
        HoldsStorage(k);
      } else {
        NothingHappens(before, k, k, k, n);
      }
      assert {k, k, k} == {k};
      Note(before, {k});
    }

    method NewDefaultStorage(k: Id, shape: seq<nat>, layout: Layout, at: Option<Addr>) returns (status: Status)
      requires Valid() && k !in things
      requires 0 < layout.strideAlign <= SIZE_MAX && memory.Answers(at)
      modifies this, memory
      ensures Valid() && Did({k})
      ensures status == Build(shape, DefaultStrides(shape), n, layout, false, at)
      ensures if status.Done? then StorageEntered(k, layout) && Holds(k) == (shape, DefaultStrides(shape))
              else things == old(things) && Now() == old(Now())
    {
      hide HistoryTo, Holds, Linked, Sound, Operation, Footprint, Joins;
      HasRoom();
      ghost var before := Now();
      var s;
      s, status := MakeDefault(memory, n, shape, layout, at);
      ViewsUnchanged();
      if status.Done? {
        Admit(k, AStorage(s), before);
        HoldsStorage(k);
      } else {
        NothingHappens(before, k, k, k, n);
      }
      assert {k, k, k} == {k};
      Note(before, {k});
    }

    method CopyStorage(k: Id, i: Id, at: Option<Addr>) returns (status: Status)
      requires Valid() && k !in things
      requires i in things && things[i].AStorage? && memory.Answers(at)
      modifies this, memory
      ensures Valid() && Did({k})
      ensures if status.Done? then StorageEntered(k, things[i].s.layout) && Holds(k) == Holds(i)
              else things == old(things) && Now() == old(Now())
      ensures status == Build(old(Holds(i)).0, old(Holds(i)).1, n, things[i].s.layout, false, at)
    {
      hide HistoryTo, Holds, Linked, Sound, Operation, Footprint, Joins;
      hide WellFormed, WellFormedMeta, Elements, ShapeOf, StridesOf, Build;
      HasRoom();
      IsUsable(i);
      HoldsStorage(i);
      var source := things[i].s;
      assert Wired(things[i], memory, n);
      ghost var before := Now();
      var s;
      s, status := MakeStorageCopy(memory, n, source, at);
      ViewsUnchanged();
      if status.Done? {
        Admit(k, AStorage(s), before);
        HoldsStorage(k);
      } else {
        NothingHappens(before, k, k, k, n);
      }
      HoldsStorage(i);
      assert {k, k, k} == {k};
      Note(before, {k});
    }

    method StorageFrom(source: ShapeStridesStorage) returns (s: ShapeStridesStorage)
      requires source.n == n && 0 < n < memory.maxSize && source.memory == memory && source.Valid()
      modifies source
      ensures fresh(s) && s.memory == memory && s.Valid() && s.Owned() == old(source.Owned())
      ensures s.Shape() == old(source.Shape()) && s.Strides() == old(source.Strides()) && source.Empty()
      ensures source.Valid() && source.Owned() == {} && s.n == n && s.layout == source.layout
    {
      s := new ShapeStridesStorage(memory, n, source.layout);
      s.MoveConstructFrom(source);
    }

    method MoveStorage(k: Id, i: Id)
      requires Valid() && k !in things && i in things && things[i].AStorage?
      modifies this, things[i].s
      ensures Valid() && Did({i, k})
      ensures Moved(k, i) && things[k].AStorage? && things[k].s.layout == things[i].s.layout
    {
      hide HistoryTo, Holds, Linked, ViewOf, Sound, Operation, Footprint, Joins;
      hide WellFormed, WellFormedMeta, Elements, ShapeOf, StridesOf;
      HasRoom();
      IsUsable(i);
      ghost var before := Now();
      HoldsStorage(i);
      var source := things[i].s;
      ghost var gave := source.Owned();
      var s := StorageFrom(source);
      ArrivedAsHeir(k, AStorage(s), i, gave);
      Register(k, AStorage(s), i, i, before);
      HoldsStorage(i);
      HoldsStorage(k);
      assert {i, i, k} == {i, k};
      Note(before, {i, k});
    }

    /** A storage built from two vectors that are given away, with or without adoption. */
    method StorageOf(shape: SmallVector<int>, strides: SmallVector<int>, layout: Layout, at: Option<Addr>)
      returns (s: ShapeStridesStorage, status: Status)
      requires 0 < n && 0 < layout.strideAlign <= SIZE_MAX && memory.Answers(at) && shape != strides
      requires shape.memory == memory && shape.n == n && shape.Valid()
      requires strides.memory == memory && strides.n == n && strides.Valid()
      requires shape.Owned() !! strides.Owned()
      modifies shape, strides, memory
      ensures fresh(s) && s.memory == memory && s.n == n && s.layout == layout
      ensures s.Valid() && shape.Valid() && strides.Valid()
      ensures s.Owned() !! shape.Owned() && s.Owned() !! strides.Owned() && shape.Owned() !! strides.Owned()
      ensures Footprint(old(memory.blocks), memory.blocks, old(shape.Owned() + strides.Owned()),
                        shape.Owned() + strides.Owned() + s.Owned())
      ensures status == BuildOwned(old(shape.View()), old(strides.View()),
                                   old(shape.Contents()), old(strides.Contents()), n, layout, at)
      ensures status.Done? ==> s.Shape() == old(shape.Contents()) && s.Strides() == old(strides.Contents())
      ensures !status.Done? ==> memory.blocks == old(memory.blocks)
      ensures !status.Done? ==> shape.View() == old(shape.View()) && strides.View() == old(strides.View())
    {
      hide Elements, Filled, WellFormedMeta, ShapeOf, StridesOf, Footprint, BuildOwned;
      ghost var owned := shape.Owned() + strides.Owned();
      s := new ShapeStridesStorage(memory, n, layout);
      ghost var views := (shape.View(), strides.View());
      status := s.InitializeOwned(shape, strides, at);
      if Adopts(views.0, views.1, n) && status.Done? {
        KeepsBlocks(memory.blocks, owned);
        assert shape.Owned() + strides.Owned() + s.Owned() == owned;
      } else {
        TakesOver(old(memory.blocks), memory.blocks, s.Owned(), owned);
      }
    }

    method NewOwnedStorage(k: Id, i: Id, j: Id, layout: Layout, at: Option<Addr>) returns (status: Status)
      requires Valid() && k !in things && i in things && j in things && i != j
      requires things[i].AVector? && things[j].AVector?
      requires 0 < layout.strideAlign <= SIZE_MAX && memory.Answers(at)
      modifies this, memory, things[i].v, things[j].v
      ensures Valid() && Did({i, j, k})
      ensures status == BuildOwned(old(things[i].v.View()), old(things[j].v.View()),
                                   old(Holds(i)).0, old(Holds(j)).0, n, layout, at)
      ensures if status.Done? then StorageEntered(k, layout) && Holds(k) == (old(Holds(i)).0, old(Holds(j)).0)
              else things == old(things) && Now() == old(Now())
    {
      hide HistoryTo, Holds, Linked, ViewOf, Sound, Operation, Footprint, Joins;
      hide WellFormed, WellFormedMeta, Elements, ShapeOf, StridesOf, Build, BuildOwned, BuildMixed;
      HasRoom();
      IsUsable(i);
      IsUsable(j);
      AreApart(i, j);
      ghost var before := Now();
      HoldsVector(i);
      HoldsVector(j);
      var shape, strides := things[i].v, things[j].v;
      ghost var gave := shape.Owned() + strides.Owned();
      var s;
      s, status := StorageOf(shape, strides, layout, at);
      if status.Done? {
        ArrivedTogether(k, AStorage(s), i, j, gave, shape.Owned() + strides.Owned() + s.Owned());
        Register(k, AStorage(s), i, j, before);
        HoldsStorage(k);
      } else {
        GaveNothing(i, j);
        NothingHappens(before, i, j, k, n);
      }
      Note(before, {i, j, k});
    }

    /** The shape is given away, the strides are copied. */
    method MixedShape(shape: SmallVector<int>, strides: SmallVector<int>, layout: Layout, at: Option<Addr>)
      returns (s: ShapeStridesStorage, status: Status)
      requires 0 < n && 0 < layout.strideAlign <= SIZE_MAX
      requires shape.memory == memory && shape.n == n && shape.Valid()
      requires strides.memory == memory && strides.n == n && strides.Valid()
      requires strides != shape && shape.Owned() !! strides.Owned()
      requires memory.Grants(strides.capacity, at)
      modifies shape, memory
      ensures fresh(s) && s.memory == memory && s.n == n && s.layout == layout && !status.Threw?
      ensures !status.Aborted? ==> s.Valid() && shape.Valid() && s.Owned() !! shape.Owned()
      ensures !status.Aborted? ==>
        Footprint(old(memory.blocks), memory.blocks, old(shape.Owned()), shape.Owned() + s.Owned())
      ensures status == BuildMixed(old(shape.View()), old(strides.View()),
                                   old(shape.Contents()), old(strides.Contents()), n, layout, at)
      ensures status.Done? ==> s.Shape() == old(shape.Contents()) && s.Strides() == old(strides.Contents())
      ensures status.BadAlloc? ==> memory.blocks == old(memory.blocks) && shape.View() == old(shape.View())
    {
      hide Elements, Filled, WellFormedMeta, ShapeOf, StridesOf, Footprint, Tagged;
      s := new ShapeStridesStorage(memory, n, layout);
      status := s.InitializeMixedShape(shape, strides, at);
      assert s.Owned() + shape.Owned() == shape.Owned() + s.Owned();
    }

    method NewMixedShapeStorage(k: Id, i: Id, j: Id, layout: Layout, at: Option<Addr>) returns (status: Status)
      requires Valid() && k !in things && i in things && things[i].AVector?
      requires j in things && things[j].AVector? && i != j && memory.Grants(things[j].v.capacity, at)
      requires 0 < layout.strideAlign <= SIZE_MAX
      modifies this, memory, things[i].v
      ensures !status.Aborted? ==> Valid() && Did({i, k})
      ensures status == BuildMixed(old(things[i].v.View()), old(things[j].v.View()),
                                   old(Holds(i)).0, old(Holds(j)).0, n, layout, at)
      ensures status.Done? ==> StorageEntered(k, layout) && Holds(k) == (old(Holds(i)).0, old(Holds(j)).0)
      ensures status.BadAlloc? ==> things == old(things) && Now() == old(Now())
    {
      hide HistoryTo, Holds, Linked, ViewOf, Sound, Operation, Footprint, Joins;
      hide WellFormed, WellFormedMeta, Elements, ShapeOf, StridesOf, Build, BuildOwned, BuildMixed;
      HasRoom();
      IsUsable(i);
      IsUsable(j);
      AreApart(i, j);
      var strides := things[j].v;
      ghost var before := Now();
      HoldsVector(i);
      HoldsVector(j);
      var shape := things[i].v;
      ghost var gave := shape.Owned();
      var s;
      s, status := MixedShape(shape, strides, layout, at);
      if status.Done? {
        ArrivedTogether(k, AStorage(s), i, i, gave, shape.Owned() + s.Owned());
        Register(k, AStorage(s), i, i, before);
        HoldsStorage(k);
      } else if status.BadAlloc? {
        GaveNothing(i, i);
        NothingHappens(before, i, i, k, n);
      }
      if !status.Aborted? {
        assert {i, i, k} == {i, k};
        Note(before, {i, k});
      }
    }

    /** The strides are given away, the shape is copied. */
    method MixedStrides(strides: SmallVector<int>, shape: SmallVector<int>, layout: Layout, at: Option<Addr>)
      returns (s: ShapeStridesStorage, status: Status)
      requires 0 < n && 0 < layout.strideAlign <= SIZE_MAX
      requires strides.memory == memory && strides.n == n && strides.Valid()
      requires shape.memory == memory && shape.n == n && shape.Valid()
      requires shape != strides && shape.Owned() !! strides.Owned()
      requires memory.Grants(shape.capacity, at)
      modifies strides, memory
      ensures fresh(s) && s.memory == memory && s.n == n && s.layout == layout && !status.Threw?
      ensures !status.Aborted? ==> s.Valid() && strides.Valid() && s.Owned() !! strides.Owned()
      ensures !status.Aborted? ==>
        Footprint(old(memory.blocks), memory.blocks, old(strides.Owned()), strides.Owned() + s.Owned())
      ensures status == BuildMixed(old(strides.View()), old(shape.View()),
                                   old(shape.Contents()), old(strides.Contents()), n, layout, at)
      ensures status.Done? ==> s.Shape() == old(shape.Contents()) && s.Strides() == old(strides.Contents())
      ensures status.BadAlloc? ==> memory.blocks == old(memory.blocks) && strides.View() == old(strides.View())
    {
      hide Elements, Filled, WellFormedMeta, ShapeOf, StridesOf, Footprint, Tagged;
      s := new ShapeStridesStorage(memory, n, layout);
      status := s.InitializeMixedStrides(shape, strides, at);
      assert s.Owned() + strides.Owned() == strides.Owned() + s.Owned();
    }

    method NewMixedStridesStorage(k: Id, i: Id, j: Id, layout: Layout, at: Option<Addr>) returns (status: Status)
      requires Valid() && k !in things && i in things && things[i].AVector?
      requires j in things && things[j].AVector? && i != j && memory.Grants(things[j].v.capacity, at)
      requires 0 < layout.strideAlign <= SIZE_MAX
      modifies this, memory, things[i].v
      ensures !status.Aborted? ==> Valid() && Did({i, k})
      ensures status == BuildMixed(old(things[i].v.View()), old(things[j].v.View()),
                                   old(Holds(j)).0, old(Holds(i)).0, n, layout, at)
      ensures status.Done? ==> StorageEntered(k, layout) && Holds(k) == (old(Holds(j)).0, old(Holds(i)).0)
      ensures status.BadAlloc? ==> things == old(things) && Now() == old(Now())
    {
      hide HistoryTo, Holds, Linked, ViewOf, Sound, Operation, Footprint, Joins;
      hide WellFormed, WellFormedMeta, Elements, ShapeOf, StridesOf, Build, BuildOwned, BuildMixed;
      HasRoom();
      IsUsable(i);
      IsUsable(j);
      AreApart(i, j);
      var shape := things[j].v;
      ghost var before := Now();
      HoldsVector(i);
      HoldsVector(j);
      var strides := things[i].v;
      ghost var gave := strides.Owned();
      var s;
      s, status := MixedStrides(strides, shape, layout, at);
      if status.Done? {
        ArrivedTogether(k, AStorage(s), i, i, gave, strides.Owned() + s.Owned());
        Register(k, AStorage(s), i, i, before);
        HoldsStorage(k);
      } else if status.BadAlloc? {
        GaveNothing(i, i);
        NothingHappens(before, i, i, k, n);
      }
      if !status.Aborted? {
        assert {i, i, k} == {i, k};
        Note(before, {i, k});
      }
    }

    /** A shape given away, with default strides. */
    method DefaultOf(shape: SmallVector<int>, ghost extents: seq<nat>, layout: Layout, at: Option<Addr>)
      returns (s: ShapeStridesStorage, status: Status)
      requires 0 < n && 0 < layout.strideAlign <= SIZE_MAX
      requires shape.memory == memory && shape.n == n && shape.Valid()
      requires shape.Contents() == extents && memory.Grants(shape.size, at)
      modifies shape, memory
      ensures fresh(s) && s.memory == memory && s.n == n && s.layout == layout && !status.Threw?
      ensures !status.Aborted? ==> s.Valid() && shape.Valid() && s.Owned() !! shape.Owned()
      ensures !status.Aborted? ==>
        Footprint(old(memory.blocks), memory.blocks, old(shape.Owned()), shape.Owned() + s.Owned())
      ensures status == if |extents| <= n || old(shape.capacity) <= n
                        then Build(extents, DefaultStrides(extents), n, layout, false, at)
                        else if at.None? then BadAlloc else if |extents| > UINT32_MAX then Aborted else Done
      ensures status.Done? ==> s.Shape() == extents && s.Strides() == DefaultStrides(extents)
      ensures status.BadAlloc? ==> memory.blocks == old(memory.blocks) && shape.View() == old(shape.View())
    {
      hide Elements, Filled, WellFormedMeta, ShapeOf, StridesOf, Footprint, Tagged;
      s := new ShapeStridesStorage(memory, n, layout);
      status := s.InitializeDefaultStridesOwned(shape, extents, at);
      assert s.Owned() + shape.Owned() == shape.Owned() + s.Owned();
    }

    method NewDefaultOwnedStorage(k: Id, i: Id, ghost extents: seq<nat>, layout: Layout, at: Option<Addr>)
      returns (status: Status)
      requires Valid() && k !in things && i in things && things[i].AVector?
      requires Holds(i) == (extents, []) && memory.Grants(things[i].v.size, at)
      requires 0 < layout.strideAlign <= SIZE_MAX
      modifies this, memory, things[i].v
      ensures !status.Aborted? ==> Valid() && Did({i, k})
      ensures status == if |extents| <= n || old(things[i].v.capacity) <= n
                        then Build(extents, DefaultStrides(extents), n, layout, false, at)
                        else if at.None? then BadAlloc else if |extents| > UINT32_MAX then Aborted else Done
      ensures status.Done? ==> StorageEntered(k, layout) && Holds(k) == (extents, DefaultStrides(extents))
      ensures status.BadAlloc? ==> things == old(things) && Now() == old(Now())
    {
      hide HistoryTo, Holds, Linked, ViewOf, Sound, Operation, Footprint, Joins;
      hide WellFormed, WellFormedMeta, Elements, ShapeOf, StridesOf, Build, BuildOwned, BuildMixed;
      HasRoom();
      IsUsable(i);
      ghost var before := Now();
      HoldsVector(i);
      var shape := things[i].v;
      ghost var gave := shape.Owned();
      var s;
      s, status := DefaultOf(shape, extents, layout, at);
      if status.Done? {
        ArrivedTogether(k, AStorage(s), i, i, gave, shape.Owned() + s.Owned());
        Register(k, AStorage(s), i, i, before);
        HoldsStorage(k);
      } else if status.BadAlloc? {
        GaveNothing(i, i);
        NothingHappens(before, i, i, k, n);
      }
      if !status.Aborted? {
        assert {i, i, k} == {i, k};
        Note(before, {i, k});
      }
    }

    method DropStorage(i: Id)
      requires Valid() && i in things && things[i].AStorage?
      modifies this, memory
      ensures Valid() && Did({i}) && things == old(things) - {i}
    {
      hide HistoryTo, Holds, Linked, ViewOf, Sound, Operation, Footprint, Joins;
      ghost var before := Now();
      IsUsable(i);
      var s := things[i].s;
      GivesUp(memory.blocks, s.Owned());
      s.ReleaseStorage();
      Left(i, old(s.Owned()));
      Unregister(i);
      assert {i, i, i} == {i};
      Note(before, {i});
    }

    // ------------------------------------------------------------------------- whole runs

    /** What a thing holds does not change while others act. */
    twostate lemma BystanderHolds(new i: Id, new ids: set<Id>)
      requires old(Valid()) && Valid() && Did(ids) && i in old(things) && i !in ids
      ensures i in things && Holds(i) == old(Holds(i))
    {
      hide Operation, Reads, Complete;
      OperationKeepsOwnership(old(Now()), Now(), ids, n);
      ObjectsStay(old(Now()), Now(), ids, i);
    }

    lemma ObjectsStay(w: World<int>, w': World<int>, ids: set<Id>, i: Id)
      requires Operation(w, w', ids, n) && i !in ids && i in w.objects
      ensures i in w'.objects
    {}

    /** The theorem about runs, for the calls made so far: at every moment every live block had
        exactly one owner, and whatever took no part since some moment holds what it held then. */
    lemma OwnershipOverHistory()
      requires Valid()
      ensures forall k :: 0 <= k < |worlds| ==> Sound(worlds[k], n)
      ensures forall k :: 0 <= k < |worlds| && worlds[k].objects == map[] ==> worlds[k].blocks == map[]
      ensures forall a: nat, i :: a <= |acting| < |worlds| && i in worlds[a].objects && Idle(acting, a, |acting|, i) ==>
        && i in things && Complete(worlds[a].objects[i], n, worlds[a].blocks)
        && Holds(i) == Reads(worlds[a].objects[i], n, worlds[a].blocks)
    {
      hide Sound, Complete, Reads, Idle;
      RunKeepsOwnership(worlds, acting, n);
    }

    method Drop(i: Id)
      requires Valid() && i in things
      modifies this, memory, Ref(things[i])
      ensures Valid() && Did({i}) && things == old(things) - {i}
    {
      hide Intact, HistoryTo, Operation;
      match things[i] {
        case AVector(_) => DropVector(i);
        case AToken(_) => DropToken(i);
        case AStorage(_) => DropStorage(i);
      }
    }

    /** Destroy everything, in any order. */
    method DropAll()
      requires Valid()
      modifies this, memory, Refs(things)
      ensures Valid() && things == map[] && memory.blocks == map[]
      ensures old(worlds) <= worlds && old(acting) <= acting
    {
      hide Valid, Operation, Ref;
      while things != map[]
        invariant Valid() && old(worlds) <= worlds && old(acting) <= acting
        invariant things.Keys <= old(things.Keys) && forall i :: i in things ==> things[i] == old(things)[i]
        decreases |things|
      {
        var i :| i in things;
        assert Ref(things[i]) in old(Refs(things));
        Drop(i);
      }
      NothingLeaks();
    }

    /** Once everything is destroyed, everything is deallocated. */
    lemma NothingLeaks()
      requires Valid() && things == map[]
      ensures memory.blocks == map[]
    {
      assert Objects() == map[];
      NothingOwned<int>(n);
      assert memory.blocks.Keys == {};
    }
  }

  lemma RefsWith(things: map<Id, Thing>, k: Id, th: Thing)
    ensures Refs(things[k := th]) <= Refs(things) + {Ref(th)}
  {
    hide Ref;
  }

  /** Objects 0 and 1, with these elements, if there is memory for both. */
  method TwoVectors(arena: Arena, first: seq<int>, second: seq<int>, granted: bool) returns (ok: bool)
    requires arena.Valid() && arena.things == map[]
    modifies arena, arena.memory
    ensures arena.Valid() && fresh(Refs(arena.things)) && arena.things.Keys <= {0, 1}
    ensures ok == (Creatable(|first|, arena.n, arena.memory.maxSize, granted)
                   && Creatable(|second|, arena.n, arena.memory.maxSize, granted))
    ensures ok ==> {0, 1} <= arena.things.Keys && arena.things[0].AVector? && arena.things[1].AVector?
                   && arena.Holds(0) == (first, []) && arena.Holds(1) == (second, [])
  {
    hide Arena.Intact, Arena.HistoryTo, Arena.Holds, Operation, Ref, Refs;
    NoRefs();
    arena.HasRoom();
    var at: Option<Addr> :| arena.memory.Offers(|first|, granted, at) by { arena.memory.AnOffer(|first|, granted); }
    assert arena.memory.Offers(|first|, granted, at);
    ok := arena.NewVector(0, first, at);
    if !ok {
      return;
    }
    RefsWith(map[], 0, arena.things[0]);
    at :| arena.memory.Offers(|second|, granted, at) by { arena.memory.AnOffer(|second|, granted); }
    assert arena.memory.Offers(|second|, granted, at);
    ghost var things := arena.things;
    label second:
    ok := arena.NewVector(1, second, at);
    if ok {
      RefsWith(things, 1, arena.things[1]);
      arena.BystanderHolds@second(0, {1});
    }
  }

  /** In the object, or in a block the allocator can give. */
  predicate Creatable(length: nat, n: nat, maxSize: nat, granted: bool) {
    length <= n || (granted && length <= maxSize)
  }

  /** Two arrays that a storage can hold. */
  predicate Storable(shape: seq<int>, strides: seq<int>, n: nat, layout: Layout, granted: bool) {
    && |shape| < 0x1_0000_0000 && |strides| < 0x1_0000_0000
    && ((|shape| <= n && |strides| <= n)
        || (&& granted
            && |shape| * layout.sizeBytes + (layout.strideAlign - 1) + |strides| * layout.strideBytes <= SIZE_MAX))
  }

  lemma StorableIsBuilt(shape: seq<int>, strides: seq<int>, n: nat, layout: Layout, at: Option<Addr>)
    requires 0 < layout.strideAlign <= SIZE_MAX
    ensures Build(shape, strides, n, layout, false, at).Done? <==> Storable(shape, strides, n, layout, at.Some?)
  {
    hide Build;
    BuildAnswers(shape, strides, n, layout, false, at);
  }

  lemma NoRefs()
    ensures Refs(map[]) == {}
  {}

  lemma RefOfStorage(th: Thing)
    requires th.AStorage?
    ensures Ref(th) == th.s
  {}

  lemma RefsOf(things: map<Id, Thing>)
    ensures forall i :: i in things ==> Ref(things[i]) in Refs(things)
  {}

  /** Storage 2 is copied and the copy moved; what has arrived is read. */
  method CopiedAndMoved(arena: Arena, granted: bool) returns (seen: Option<(seq<int>, seq<int>)>)
    requires arena.Valid() && arena.things.Keys == {0, 1, 2} && arena.things[2].AStorage?
    requires 0 < arena.things[2].s.layout.strideAlign <= SIZE_MAX
    modifies arena, arena.memory
    ensures arena.Valid() && fresh(Refs(arena.things) - old(Refs(arena.things)))
    ensures seen.Some? ==> seen.value == old(arena.Holds(2))
    ensures seen.Some? <==>
      Storable(old(arena.Holds(2)).0, old(arena.Holds(2)).1, arena.n, old(arena.things[2].s.layout), granted)
  {
    hide Arena.Intact, Arena.HistoryTo, Arena.Holds, Arena.Now, Operation, Ref, Refs, Build, Storable;
    ghost var things := arena.things;
    var at: Option<Addr> :| arena.memory.Offers(0, granted, at) by { arena.memory.AnOffer(0, granted); }
    assert arena.memory.Offers(0, granted, at);
    StorableIsBuilt(arena.Holds(2).0, arena.Holds(2).1, arena.n, arena.things[2].s.layout, at);
    label copying:
    var status := arena.CopyStorage(3, 2, at);
    if !status.Done? {
      return None;
    }
    arena.BystanderHolds@copying(2, {3});
    RefsWith(things, 3, arena.things[3]);
    RefOfStorage(arena.things[3]);
    things := arena.things;
    arena.MoveStorage(4, 3);
    RefsWith(things, 4, arena.things[4]);
    arena.HoldsStorage(4);
    return Some((arena.things[4].s.Shape(), arena.things[4].s.Strides()));
  }

  /** What can be stored is stored when two vectors give it away, adopted or not. */
  lemma StorableIsAdopted(first: Vec<int>, second: Vec<int>, shape: seq<int>, strides: seq<int>, n: nat,
                          layout: Layout, at: Option<Addr>)
    requires 0 < layout.strideAlign <= SIZE_MAX && Storable(shape, strides, n, layout, at.Some?)
    ensures BuildOwned(first, second, shape, strides, n, layout, at).Done?
  {
    hide Build;
    StorableIsBuilt(shape, strides, n, layout, at);
  }

  /** A client of many objects: two vectors give their elements to a storage, which is copied and
      the copy moved.  Whether or not the allocator has memory, what is read at the end is what was
      put in, it is read exactly when everything fits, and nothing is left in memory. */
  method ThereAndBack(memory: Memory<int>, n: nat, shape: seq<int>, strides: seq<int>, layout: Layout, granted: bool)
    returns (seen: Option<(seq<int>, seq<int>)>)
    requires memory.blocks == map[] && 0 < n < memory.maxSize && 0 < layout.strideAlign <= SIZE_MAX
    modifies memory
    ensures memory.blocks == map[]
    ensures seen.Some? ==> seen.value == (shape, strides)
    ensures seen.Some? <==>
      Creatable(|shape|, n, memory.maxSize, granted) && Creatable(|strides|, n, memory.maxSize, granted)
      && Storable(shape, strides, n, layout, granted)
  {
    hide Arena.Intact, Arena.HistoryTo, Arena.Holds, Operation, BuildOwned, Storable, Refs;
    seen := None;
    var arena := new Arena(memory, n);
    var ok := TwoVectors(arena, shape, strides, granted);
    if ok {
      ghost var things := arena.things;
      RefsOf(things);
      assert {Ref(things[0]), Ref(things[1])} <= Refs(things);
      var at: Option<Addr> :| memory.Offers(0, granted, at) by { memory.AnOffer(0, granted); }
      assert memory.Offers(0, granted, at);
      ghost var views := (things[0].v.View(), things[1].v.View());
      var status := arena.NewOwnedStorage(2, 0, 1, layout, at);
      if Storable(shape, strides, n, layout, granted) {
        StorableIsAdopted(views.0, views.1, shape, strides, n, layout, at);
      }
      if status.Done? {
        RefsWith(things, 2, arena.things[2]);
        seen := CopiedAndMoved(arena, granted);
      }
    }
    arena.DropAll();
  }
}
