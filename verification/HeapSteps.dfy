/** Steps of up to three objects, as operations in the sense of `HeapOwnership`: objects that act
    in place, newcomers with fresh blocks or with blocks taken over, and objects that leave. */
module HeapSteps {
  import opened HeapMemory
  import opened HeapOwnership

  function OwnsAt<T>(objects: map<Id, Object<T>>, i: Id, n: nat): set<Addr> {
    if i in objects then Owns(objects[i], n) else {}
  }

  lemma OwnedByThree<T>(objects: map<Id, Object<T>>, i: Id, j: Id, k: Id, n: nat)
    ensures OwnedIn(Part(objects, {i, j, k}), n)
      == OwnsAt(objects, i, n) + OwnsAt(objects, j, n) + OwnsAt(objects, k, n)
  {
    hide Owns;
    var part := Part(objects, {i, j, k});
    assert forall x :: x in objects && x in {i, j, k} ==> x in part;
  }

  ghost predicate Apart<T>(objects: map<Id, Object<T>>, i: Id, j: Id, n: nat) {
    i == j || OwnsAt(objects, i, n) !! OwnsAt(objects, j, n)
  }

  lemma PartApart<T>(objects: map<Id, Object<T>>, i: Id, j: Id, k: Id, n: nat)
    requires Apart(objects, i, j, n) && Apart(objects, i, k, n) && Apart(objects, j, k, n)
    ensures OneOwnerEach(Part(objects, {i, j, k}), n)
  {
    hide Owns;
  }

  ghost predicate SameElsewhere<T>(w: World<T>, w': World<T>, i: Id, j: Id, k: Id) {
    && (forall x :: x !in {i, j, k} ==> (x in w.objects <==> x in w'.objects))
    && (forall x :: x !in {i, j, k} && x in w.objects ==> w'.objects[x] == w.objects[x])
  }

  ghost predicate CompleteAt<T>(w: World<T>, i: Id, n: nat) {
    i in w.objects ==> Complete(w.objects[i], n, w.blocks)
  }

  /** Up to three objects act, some of them new or gone afterwards. */
  lemma ActTogether<T>(w: World<T>, w': World<T>, i: Id, j: Id, k: Id, n: nat, gave: set<Addr>, holds: set<Addr>)
    requires Sound(w, n) && SameElsewhere(w, w', i, j, k)
    requires CompleteAt(w', i, n) && CompleteAt(w', j, n) && CompleteAt(w', k, n)
    requires Apart(w'.objects, i, j, n) && Apart(w'.objects, i, k, n) && Apart(w'.objects, j, k, n)
    requires gave == OwnsAt(w.objects, i, n) + OwnsAt(w.objects, j, n) + OwnsAt(w.objects, k, n)
    requires holds == OwnsAt(w'.objects, i, n) + OwnsAt(w'.objects, j, n) + OwnsAt(w'.objects, k, n)
    requires Footprint(w.blocks, w'.blocks, gave, holds)
    ensures Operation(w, w', {i, j, k}, n) && Sound(w', n)
  {
    hide Owns, Complete, Footprint, Sound, OneOwnerEach, Apart, OwnedIn, OwnsAt, Part;
    OwnedByThree(w.objects, i, j, k, n);
    OwnedByThree(w'.objects, i, j, k, n);
    PartApart(w'.objects, i, j, k, n);
    OperationKeepsOwnership(w, w', {i, j, k}, n);
  }

  /** A step in which nothing at all changes. */
  lemma NothingHappens<T>(w: World<T>, i: Id, j: Id, k: Id, n: nat)
    requires Sound(w, n)
    ensures Operation(w, w, {i, j, k}, n)
  {
    hide Owns, Complete;
    var owned := OwnsAt(w.objects, i, n) + OwnsAt(w.objects, j, n) + OwnsAt(w.objects, k, n);
    assert forall a :: a in owned ==> a in OwnedIn(w.objects, n);
    ActTogether(w, w, i, j, k, n, owned, owned);
  }

  /** The objects `i` and `j` have acted and a new one, `k`, joins: in `mid` it is not known yet. */
  ghost predicate Joins<T>(before: World<T>, mid: World<T>, i: Id, j: Id, k: Id, o: Object<T>, n: nat) {
    && k !in before.objects && k !in mid.objects && SameElsewhere(before, mid, i, j, k)
    && CompleteAt(mid, i, n) && CompleteAt(mid, j, n) && Complete(o, n, mid.blocks)
    && Apart(mid.objects, i, j, n) && OwnsAt(mid.objects, i, n) !! Owns(o, n) && OwnsAt(mid.objects, j, n) !! Owns(o, n)
    && Footprint(before.blocks, mid.blocks, OwnsAt(before.objects, i, n) + OwnsAt(before.objects, j, n),
                 OwnsAt(mid.objects, i, n) + OwnsAt(mid.objects, j, n) + Owns(o, n))
  }

  lemma JoiningIsOperation<T>(before: World<T>, mid: World<T>, i: Id, j: Id, k: Id, o: Object<T>, n: nat)
    requires Sound(before, n) && Joins(before, mid, i, j, k, o, n)
    ensures var w := World(mid.blocks, mid.objects[k := o]);
      Operation(before, w, {i, j, k}, n) && Sound(w, n)
  {
    hide Owns, Complete, Footprint, Sound;
    var gave := OwnsAt(before.objects, i, n) + OwnsAt(before.objects, j, n);
    var holds := OwnsAt(mid.objects, i, n) + OwnsAt(mid.objects, j, n) + Owns(o, n);
    ActTogether(before, World(mid.blocks, mid.objects[k := o]), i, j, k, n, gave, holds);
  }

  /** A newcomer with fresh blocks only. */
  lemma FreshJoins<T>(before: World<T>, mid: World<T>, i: Id, j: Id, k: Id, o: Object<T>, n: nat)
    requires Sound(before, n) && mid.objects == before.objects && k !in before.objects
    requires Complete(o, n, mid.blocks) && Footprint(before.blocks, mid.blocks, {}, Owns(o, n))
    ensures Joins(before, mid, i, j, k, o, n)
  {
    hide Owns, Complete, Reads;
    forall x | x in before.objects
      ensures Owns(before.objects[x], n) <= before.blocks.Keys && Complete(before.objects[x], n, mid.blocks)
    {
      assert forall a :: a in Owns(before.objects[x], n) ==> a in OwnedIn(before.objects, n);
      ReadsUndisturbed(before.objects[x], n, before.blocks, mid.blocks);
    }
  }

  /** A newcomer that takes over the blocks of `i` and `j`. */
  lemma HeirJoins<T>(before: World<T>, mid: World<T>, i: Id, j: Id, k: Id, o: Object<T>, n: nat)
    requires Sound(before, n) && SameElsewhere(before, mid, i, j, k) && k !in before.objects && k !in mid.objects
    requires mid.blocks == before.blocks && Complete(o, n, mid.blocks) && CompleteAt(mid, i, n) && CompleteAt(mid, j, n)
    requires OwnsAt(mid.objects, i, n) == OwnsAt(mid.objects, j, n) == {}
    requires Owns(o, n) == OwnsAt(before.objects, i, n) + OwnsAt(before.objects, j, n)
    ensures Joins(before, mid, i, j, k, o, n)
  {
    hide Owns, Complete;
    assert forall a :: a in Owns(o, n) ==> a in OwnedIn(before.objects, n);
  }

  /** An object leaves, and its blocks with it. */
  lemma LeavingIsOperation<T>(before: World<T>, mid: World<T>, i: Id, n: nat)
    requires Sound(before, n) && i in before.objects && SameElsewhere(before, mid, i, i, i)
    requires Footprint(before.blocks, mid.blocks, Owns(before.objects[i], n), {})
    ensures var w := World(mid.blocks, mid.objects - {i});
      Operation(before, w, {i, i, i}, n) && Sound(w, n)
  {
    hide Owns, Complete, Footprint, Sound;
    ActTogether(before, World(mid.blocks, mid.objects - {i}), i, i, i, n, Owns(before.objects[i], n), {});
  }
}
