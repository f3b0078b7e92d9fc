/** Ownership of heap blocks across vectors, owner tokens and metadata storage, over whole runs
    of their operations. */
module HeapOwnership {
  import opened HeapMemory
  import opened SmallVectors
  import opened ShapeStrides

  type Id = nat

  datatype Object<+T> =
    | Vector(v: Vec<T>)
    | Token(data: Addr, size: nat, capacity: nat)
    | Storage(m: Meta<T>)

  function Owns<T>(o: Object<T>, n: nat): set<Addr> {
    match o
    case Vector(v) => OwnedBy(v, n)
    case Token(data, _, _) => if data == 0 then {} else {data}
    case Storage(m) => BlocksOf(m, n)
  }

  /** The object is complete: its blocks are live, of the kind and the capacity it will give
      them back with. */
  ghost predicate Complete<T>(o: Object<T>, n: nat, blocks: Blocks<T>) {
    match o
    case Vector(v) => WellFormed(v, n, blocks)
    case Token(data, size, capacity) =>
      if data == 0 then size == capacity == 0 else Adopted(Pointer(data, 0), size, capacity, blocks)
    case Storage(m) => WellFormedMeta(m, n, blocks)
  }

  /** What can be read through the object. */
  ghost function Reads<T>(o: Object<T>, n: nat, blocks: Blocks<T>): (seq<T>, seq<T>)
    requires Complete(o, n, blocks)
  {
    match o
    case Vector(v) => (Elements(v, n, blocks), [])
    case Token(data, size, _) => (if data == 0 then [] else Behind(Pointer(data, 0), size, blocks), [])
    case Storage(m) => (ShapeOf(m, n, blocks), StridesOf(m, n, blocks))
  }

  datatype World<T> = World(blocks: Blocks<T>, objects: map<Id, Object<T>>)

  function OwnedIn<T>(objects: map<Id, Object<T>>, n: nat): set<Addr> {
    set i, a | i in objects && a in Owns(objects[i], n) :: a
  }

  ghost predicate OneOwnerEach<T>(objects: map<Id, Object<T>>, n: nat) {
    forall i, j :: i in objects && j in objects && i != j ==> Owns(objects[i], n) !! Owns(objects[j], n)
  }

  ghost predicate AllComplete<T>(w: World<T>, n: nat) {
    forall i :: i in w.objects ==> Complete(w.objects[i], n, w.blocks)
  }

  /** Every live block has exactly one owner, and every owner is complete. */
  ghost predicate Sound<T>(w: World<T>, n: nat) {
    AllComplete(w, n) && OneOwnerEach(w.objects, n) && w.blocks.Keys == OwnedIn(w.objects, n)
  }

  function Part<T>(objects: map<Id, Object<T>>, ids: set<Id>): (part: map<Id, Object<T>>) {
    map i | i in objects && i in ids :: objects[i]
  }

  /** What the contracts of all operations here say of the objects `acting`, some of which may be
      created or destroyed: they end up complete with separate blocks, and no block of another
      object is touched. */
  ghost predicate Operation<T>(w: World<T>, w': World<T>, acting: set<Id>, n: nat) {
    && (forall i :: i !in acting ==> (i in w.objects <==> i in w'.objects))
    && (forall i :: i !in acting && i in w.objects ==> w'.objects[i] == w.objects[i])
    && (forall i :: i in acting && i in w'.objects ==> Complete(w'.objects[i], n, w'.blocks))
    && OneOwnerEach(Part(w'.objects, acting), n)
    && Footprint(w.blocks, w'.blocks, OwnedIn(Part(w.objects, acting), n), OwnedIn(Part(w'.objects, acting), n))
  }

  lemma ReadsUndisturbed<T>(o: Object<T>, n: nat, before: Blocks<T>, after: Blocks<T>)
    requires Complete(o, n, before)
    requires forall a :: a in Owns(o, n) ==> a in after && after[a] == before[a]
    ensures Complete(o, n, after) && Reads(o, n, after) == Reads(o, n, before)
  {
    hide Elements, ShapeOf, StridesOf, WellFormed, WellFormedMeta;
    match o
    case Vector(v) => Undisturbed(v, n, before, after);
    case Token(data, size, _) =>
    case Storage(m) => StorageUndisturbed(m, n, before, after);
  }

  /** A bystander owns none of the blocks the acting objects owned or own. */
  lemma BystanderKeeps<T>(w: World<T>, w': World<T>, acting: set<Id>, n: nat, i: Id)
    requires Sound(w, n) && Operation(w, w', acting, n) && i in w.objects && i !in acting
    ensures Owns(w.objects[i], n) <= w.blocks.Keys
    ensures Owns(w.objects[i], n) !! OwnedIn(Part(w.objects, acting), n)
    ensures Owns(w.objects[i], n) !! OwnedIn(Part(w'.objects, acting), n)
    ensures forall a :: a in Owns(w.objects[i], n) ==> a in w'.blocks && w'.blocks[a] == w.blocks[a]
  {
    hide Owns, Complete;
    forall a | a in Owns(w.objects[i], n) ensures a in w.blocks && a !in OwnedIn(Part(w.objects, acting), n) {
      assert a in OwnedIn(w.objects, n);
    }
  }

  /** No operation leaves a block without an owner or with two, and no operation is noticed by an
      object that takes no part in it. */
  lemma OperationKeepsOwnership<T>(w: World<T>, w': World<T>, acting: set<Id>, n: nat)
    requires Sound(w, n) && Operation(w, w', acting, n)
    ensures Sound(w', n)
    ensures forall i :: i in w.objects && i !in acting ==>
      Reads(w'.objects[i], n, w'.blocks) == Reads(w.objects[i], n, w.blocks)
  {
    hide Owns, Complete, Reads;
    forall i | i in w.objects && i !in acting
      ensures Complete(w'.objects[i], n, w'.blocks)
      ensures Reads(w'.objects[i], n, w'.blocks) == Reads(w.objects[i], n, w.blocks)
    {
      BystanderKeeps(w, w', acting, n, i);
      ReadsUndisturbed(w.objects[i], n, w.blocks, w'.blocks);
    }
    StillOneOwner(w, w', acting, n);
    StillAllOwned(w, w', acting, n);
  }

  lemma StillOneOwner<T>(w: World<T>, w': World<T>, acting: set<Id>, n: nat)
    requires Sound(w, n) && Operation(w, w', acting, n)
    ensures OneOwnerEach(w'.objects, n)
  {
    hide Owns, Complete;
    forall i, j | i in w'.objects && j in w'.objects && i != j
      ensures Owns(w'.objects[i], n) !! Owns(w'.objects[j], n)
    {
      var part := Part(w'.objects, acting);
      if i in acting && j in acting {
        assert i in part && j in part;
      } else if i in acting {
        BystanderKeeps(w, w', acting, n, j);
        assert i in part && forall a :: a in Owns(part[i], n) ==> a in OwnedIn(part, n);
      } else if j in acting {
        BystanderKeeps(w, w', acting, n, i);
        assert j in part && forall a :: a in Owns(part[j], n) ==> a in OwnedIn(part, n);
      }
    }
  }

  lemma StillAllOwned<T>(w: World<T>, w': World<T>, acting: set<Id>, n: nat)
    requires Sound(w, n) && Operation(w, w', acting, n)
    ensures w'.blocks.Keys == OwnedIn(w'.objects, n)
  {
    hide Owns, Complete;
    var part, part' := Part(w.objects, acting), Part(w'.objects, acting);
    forall a ensures a in w'.blocks.Keys <==> a in OwnedIn(w'.objects, n) {
      if a in w'.blocks.Keys {
        if a in OwnedIn(part', n) {
          var i :| i in part' && a in Owns(part'[i], n);
          assert i in w'.objects && a in Owns(w'.objects[i], n);
        } else {
          assert a in OwnedIn(w.objects, n) && a !in OwnedIn(part, n);
          var i :| i in w.objects && a in Owns(w.objects[i], n);
          assert i in acting ==> i in part;
          assert i in w'.objects && a in Owns(w'.objects[i], n);
        }
      }
      if a in OwnedIn(w'.objects, n) {
        var i :| i in w'.objects && a in Owns(w'.objects[i], n);
        if i in acting {
          assert i in part' && a in Owns(part'[i], n);
        } else {
          BystanderKeeps(w, w', acting, n, i);
        }
      }
    }
  }

  /** Any number of operations, one after another. */
  ghost predicate Run<T>(worlds: seq<World<T>>, acting: seq<set<Id>>, n: nat) {
    && |worlds| == |acting| + 1
    && forall k :: 0 <= k < |acting| ==> Operation(worlds[k], worlds[k + 1], acting[k], n)
  }

  lemma RunExtends<T>(worlds: seq<World<T>>, acting: seq<set<Id>>, w: World<T>, ids: set<Id>, n: nat)
    requires Run(worlds, acting, n) && Operation(worlds[|acting|], w, ids, n)
    ensures Run(worlds + [w], acting + [ids], n)
  {
    hide Operation;
    forall k | 0 <= k < |acting| + 1
      ensures Operation((worlds + [w])[k], (worlds + [w])[k + 1], (acting + [ids])[k], n)
    {
      if k < |acting| {
        assert Operation(worlds[k], worlds[k + 1], acting[k], n);
      }
    }
  }

  /** Object `i` takes no part between moments `a` and `b`. */
  ghost predicate Idle(acting: seq<set<Id>>, a: nat, b: nat, i: Id)
    requires a <= b <= |acting|
  {
    forall k :: a <= k < b ==> i !in acting[k]
  }

  lemma {:induction false} RunIsSound<T>(worlds: seq<World<T>>, acting: seq<set<Id>>, n: nat)
    requires Run(worlds, acting, n) && worlds[0] == World(map[], map[])
    ensures forall k :: 0 <= k < |worlds| ==> Sound(worlds[k], n)
    decreases |acting|
  {
    hide Operation, OwnedIn, Complete;
    if |acting| == 0 {
      NothingOwned<T>(n);
      assert Sound(worlds[0], n);
    } else {
      var last := |acting| - 1;
      RunIsSound(worlds[..last + 1], acting[..last], n);
      assert worlds[last] == worlds[..last + 1][last];
      OperationKeepsOwnership(worlds[last], worlds[last + 1], acting[last], n);
      forall k | 0 <= k < |worlds| ensures Sound(worlds[k], n) {
        if k <= last {
          assert worlds[..last + 1][k] == worlds[k];
        }
      }
    }
  }

  /** An object reads the same at two moments of a sound run if it takes no part in between. */
  lemma {:induction false} BystandersReadTheSame<T>(worlds: seq<World<T>>, acting: seq<set<Id>>, n: nat, a: nat,
                                                    b: nat, i: Id)
    requires Run(worlds, acting, n) && a <= b < |worlds|
    requires Sound(worlds[a], n) && i in worlds[a].objects
    requires Idle(acting, a, b, i)
    ensures Sound(worlds[b], n) && i in worlds[b].objects && worlds[b].objects[i] == worlds[a].objects[i]
    ensures Complete(worlds[a].objects[i], n, worlds[a].blocks) && Complete(worlds[b].objects[i], n, worlds[b].blocks)
    ensures Reads(worlds[b].objects[i], n, worlds[b].blocks) == Reads(worlds[a].objects[i], n, worlds[a].blocks)
    decreases b - a
  {
    hide Owns, OwnedIn, Complete, Reads;
    if a == b {
    } else {
      BystandersReadTheSame(worlds, acting, n, a, b - 1, i);
      assert Operation(worlds[b - 1], worlds[b], acting[b - 1], n);
      OperationKeepsOwnership(worlds[b - 1], worlds[b], acting[b - 1], n);
    }
  }

  /** From an empty heap, through any run: each live block has one owner at every moment, an
      object reads the same for as long as it takes no part, and once all objects are gone so
      are all blocks. */
  lemma RunKeepsOwnership<T>(worlds: seq<World<T>>, acting: seq<set<Id>>, n: nat)
    requires Run(worlds, acting, n) && worlds[0] == World(map[], map[])
    ensures forall k :: 0 <= k < |worlds| ==> Sound(worlds[k], n)
    ensures forall k :: 0 <= k < |worlds| && worlds[k].objects == map[] ==> worlds[k].blocks == map[]
    ensures forall a, b, i :: 0 <= a <= b < |worlds| && i in worlds[a].objects && Idle(acting, a, b, i) ==>
      && i in worlds[b].objects
      && Complete(worlds[a].objects[i], n, worlds[a].blocks) && Complete(worlds[b].objects[i], n, worlds[b].blocks)
      && Reads(worlds[b].objects[i], n, worlds[b].blocks) == Reads(worlds[a].objects[i], n, worlds[a].blocks)
  {
    hide Operation, OwnedIn, Complete, Reads, Idle;
    RunIsSound(worlds, acting, n);
    forall a, b, i | 0 <= a <= b < |worlds| && i in worlds[a].objects && Idle(acting, a, b, i)
      ensures i in worlds[b].objects
      ensures Complete(worlds[a].objects[i], n, worlds[a].blocks) && Complete(worlds[b].objects[i], n, worlds[b].blocks)
      ensures Reads(worlds[b].objects[i], n, worlds[b].blocks) == Reads(worlds[a].objects[i], n, worlds[a].blocks)
    {
      BystandersReadTheSame(worlds, acting, n, a, b, i);
    }
    forall k | 0 <= k < |worlds| && worlds[k].objects == map[] ensures worlds[k].blocks == map[] {
      NothingOwned<T>(n);
      assert worlds[k].blocks.Keys == {};
    }
  }

  lemma NothingOwned<T>(n: nat)
    ensures OwnedIn<T>(map[], n) == {}
  {}
}
