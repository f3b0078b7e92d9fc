/** What every critical section of the pool keeps: where each block may be listed, and that
    pin counts are exactly the number of holders. */
module PoolInvariant {
  import opened Wrappers
  import opened PoolModel

  /** Who may hold a batch of pinned blocks: the transaction being captured, a thread between
      the two critical sections of a commit, or a committed lease. */
  datatype Holder = Current | Committing(thread: ThreadId) | Lease(id: nat)

  type Batches = map<Holder, seq<Ptr>>

  function Holders(bs: Batches, p: Ptr): set<Holder> {
    set h | h in bs && p in bs[h]
  }

  ghost predicate BlockOk(p: Ptr, b: Block, generation: nat) {
    && b.ptr == p != NULL
    && b.size > 0
    && (b.kind == SizeClass ==> b.classIndex < |CLASS_SIZES| && b.size == CLASS_SIZES[b.classIndex])
    && (b.inUse <==> b.useCount > 0)
    && b.generation <= generation
  }

  /** Block `p` belongs in the free list of class `c`. */
  predicate FreeIn(all: map<Ptr, Block>, p: Ptr, c: nat) {
    p in all && all[p].kind == SizeClass && all[p].classIndex == c && !all[p].inUse
  }

  predicate IsLarge(all: map<Ptr, Block>, p: Ptr) {
    p in all && all[p].kind != SizeClass
  }

  ghost predicate FreeListsOk(s: Pool) {
    && |s.free| == |CLASS_SIZES|
    && (forall c :: 0 <= c < |s.free| ==> Distinct(s.free[c]))
    && (forall c, p :: 0 <= c < |s.free| ==> (p in s.free[c] <==> FreeIn(s.all, p, c)))
  }

  ghost predicate LargeListOk(s: Pool) {
    && Distinct(s.large)
    && (forall p :: p in s.large <==> IsLarge(s.all, p))
  }

  ghost predicate FrozenOk(s: Pool) {
    && Distinct(s.frozen)
    && (forall p :: p in s.frozen <==> p in s.frozenSet)
    && (forall p :: p in s.frozen ==> p in s.all)
    && (s.pinned <==> s.owner.Some?)
    && (!s.pinned ==> s.frozen == [])
  }

  ghost predicate BackendOk(s: Pool) {
    && s.all.Keys <= s.backend.live
    && NULL !in s.backend.live
    && !s.backend.misused
  }

  /** Every block is where its kind and state say, and nowhere else. */
  ghost predicate Placed(s: Pool) {
    && (forall p :: p in s.all ==> BlockOk(p, s.all[p], s.generation))
    && FreeListsOk(s)
    && LargeListOk(s)
    && FrozenOk(s)
    && BackendOk(s)
    && s.generation <= GENERATION_MAX
  }

  /** Each pin is one holder's, and every held block is a block of the pool. */
  ghost predicate Counted(all: map<Ptr, Block>, bs: Batches) {
    && (forall p :: p in all ==> all[p].pinCount == |Holders(bs, p)|)
    && (forall h :: h in bs ==> Distinct(bs[h]))
    && (forall h, p :: h in bs && p in bs[h] ==> p in all)
  }

  /** The batches of other holders together with the list of the open transaction. */
  function AllBatches(s: Pool, others: Batches): Batches {
    others[Current := s.frozen]
  }

  ghost predicate Inv(s: Pool, others: Batches) {
    && Current !in others
    && Placed(s)
    && Counted(s.all, AllBatches(s, others))
  }

  /** The part of the invariant that needs no knowledge of who else holds pins: what a call
      may assume of the pool it enters. */
  ghost predicate Sound(s: Pool) {
    && Placed(s)
    && forall p :: p in s.frozen ==> p in s.all && s.all[p].pinCount > 0
  }

  /** Every pool of a run is sound. */
  lemma InvIsSound(s: Pool, others: Batches)
    requires Inv(s, others)
    ensures Sound(s)
  {
    var bs := AllBatches(s, others);
    forall p | p in s.frozen ensures p in s.all && s.all[p].pinCount > 0 {
      HeldIsPinned(s.all, bs, Current, p);
    }
  }

  lemma PlacedIsListed(s: Pool)
    requires Placed(s)
    ensures Listed(s)
  {
    forall c, p | 0 <= c < |s.free| && p in s.free[c] ensures p in s.all {
      assert FreeIn(s.all, p, c);
    }
    forall p | p in s.large ensures p in s.all {
      assert IsLarge(s.all, p);
    }
  }

  // ---------------------------------------------------------------- sequences

  lemma {:induction false} RemoveMembers<T>(s: seq<T>, x: T, y: T)
    ensures y in Remove(s, x) <==> y in s && y != x
  {
    if s == [] {
    } else {
      RemoveMembers(s[1..], x, y);
      assert s == [s[0]] + s[1..];
    }
  }

  lemma {:induction false} RemoveDistinct<T>(s: seq<T>, x: T)
    requires Distinct(s)
    ensures Distinct(Remove(s, x))
  {
    if s == [] {
    } else {
      RemoveDistinct(s[1..], x);
      RemoveMembers(s[1..], x, s[0]);
      assert s == [s[0]] + s[1..];
    }
  }

  lemma {:induction false} RemoveAbsent<T>(s: seq<T>, x: T)
    requires x !in s
    ensures Remove(s, x) == s
  {
    if s == [] {
    } else {
      RemoveAbsent(s[1..], x);
      assert s == [s[0]] + s[1..];
    }
  }

  lemma {:induction false} RemoveLast<T>(s: seq<T>, x: T)
    requires x !in s
    ensures Remove(s + [x], x) == s
  {
    if s == [] {
      assert [x][1..] == [];
    } else {
      assert (s + [x])[1..] == s[1..] + [x];
      RemoveLast(s[1..], x);
    }
  }

  lemma WithoutMembers<T>(s: seq<T>, i: nat)
    requires i < |s| && Distinct(s)
    ensures Distinct(Without(s, i))
    ensures forall y :: y in Without(s, i) <==> y in s && y != s[i]
  {
    forall y | y in s && y != s[i] ensures y in Without(s, i) {
      var k :| 0 <= k < |s| && s[k] == y;
      assert y == if k < i then Without(s, i)[k] else Without(s, i)[k - 1];
    }
  }

  lemma DistinctAppend<T>(s: seq<T>, x: T)
    requires Distinct(s) && x !in s
    ensures Distinct(s + [x])
  {}

  // ---------------------------------------------------------------- searches

  lemma {:induction false} FirstIdleFinds(all: map<Ptr, Block>, list: seq<Ptr>, i: nat)
    requires i <= |list| && forall p :: p in list ==> p in all
    ensures var k := FirstIdle(all, list, i);
      i <= k <= |list|
      && (k < |list| ==> !all[list[k]].inUse)
      && forall j :: i <= j < k ==> all[list[j]].inUse
    decreases |list| - i
  {
    if i == |list| || !all[list[i]].inUse {
    } else {
      FirstIdleFinds(all, list, i + 1);
    }
  }

  lemma {:induction false} FirstFitFinds(all: map<Ptr, Block>, list: seq<Ptr>, size: nat, exact: bool, i: nat)
    requires i <= |list| && forall p :: p in list ==> p in all
    ensures var k := FirstFit(all, list, size, exact, i);
      i <= k <= |list|
      && (k < |list| ==> Fits(all[list[k]], size, exact))
      && forall j :: i <= j < k ==> !Fits(all[list[j]], size, exact)
    decreases |list| - i
  {
    if i == |list| || Fits(all[list[i]], size, exact) {
    } else {
      FirstFitFinds(all, list, size, exact, i + 1);
    }
  }

  // ---------------------------------------------------------------- holders

  /** Appending a new block to one batch adds that holder, to that block alone. */
  lemma HoldersAppend(bs: Batches, h: Holder, p: Ptr, q: Ptr)
    requires h in bs && p !in bs[h]
    ensures var after := bs[h := bs[h] + [p]];
      |Holders(after, q)| == |Holders(bs, q)| + (if q == p then 1 else 0)
  {
    var after := bs[h := bs[h] + [p]];
    if q == p {
      assert Holders(after, q) == Holders(bs, q) + {h};
    } else {
      assert Holders(after, q) == Holders(bs, q);
    }
  }

  /** Handing a batch from one holder to a new one changes no block's number of holders. */
  lemma HoldersRename(bs: Batches, from: Holder, to: Holder, q: Ptr)
    requires from in bs && to !in bs
    ensures |Holders((bs - {from})[to := bs[from]], q)| == |Holders(bs, q)|
  {
    var after := (bs - {from})[to := bs[from]];
    assert forall h :: h in after <==> h == to || (h in bs && h != from);
    if q in bs[from] {
      assert Holders(after, q) == Holders(bs, q) - {from} + {to};
      assert to !in Holders(bs, q) && from in Holders(bs, q);
    } else {
      assert Holders(after, q) == Holders(bs, q);
    }
  }

  lemma HoldersDrop(bs: Batches, h: Holder, q: Ptr)
    requires h in bs
    ensures |Holders(bs - {h}, q)| == |Holders(bs, q)| - (if q in bs[h] then 1 else 0)
  {
    if q in bs[h] {
      assert Holders(bs - {h}, q) == Holders(bs, q) - {h};
    } else {
      assert Holders(bs - {h}, q) == Holders(bs, q);
    }
  }

  lemma HoldersEmpty(bs: Batches, h: Holder, q: Ptr)
    requires h !in bs
    ensures Holders(bs[h := []], q) == Holders(bs, q)
  {}

  lemma HeldIsPinned(all: map<Ptr, Block>, bs: Batches, h: Holder, p: Ptr)
    requires Counted(all, bs) && h in bs && p in bs[h]
    ensures p in all && all[p].pinCount > 0
  {
    assert h in Holders(bs, p);
  }

  // ---------------------------------------------------------------- release

  function Released(all: map<Ptr, Block>, blocks: seq<Ptr>): map<Ptr, Block>
    requires forall p :: p in blocks ==> p in all && all[p].pinCount > 0
  {
    map p | p in all :: if p in blocks then all[p].(pinCount := all[p].pinCount - 1) else all[p]
  }

  /** On a duplicate-free batch of pinned blocks the guard of the release loop never fires:
      each block loses exactly one pin and nothing else changes. */
  lemma {:induction false} UnpinReleases(all: map<Ptr, Block>, blocks: seq<Ptr>)
    requires Distinct(blocks)
    requires forall p :: p in blocks ==> p in all && all[p].pinCount > 0
    ensures Unpin(all, blocks) == Released(all, blocks)
  {
    if blocks == [] {
      assert Released(all, blocks) == all;
    } else {
      var p := blocks[0];
      var next := all[p := all[p].(pinCount := all[p].pinCount - 1)];
      assert p !in blocks[1..];
      UnpinReleases(next, blocks[1..]);
      assert blocks == [p] + blocks[1..];
      assert Released(next, blocks[1..]) == Released(all, blocks);
    }
  }

  /** Dropping a whole holder keeps the count exact. */
  lemma ReleaseKeepsCount(all: map<Ptr, Block>, bs: Batches, h: Holder)
    requires Counted(all, bs) && h in bs
    ensures Counted(Unpin(all, bs[h]), bs - {h})
    ensures forall p :: p in bs[h] ==> p in all && all[p].pinCount > 0
    ensures Unpin(all, bs[h]) == Released(all, bs[h])
  {
    forall p | p in bs[h] ensures p in all && all[p].pinCount > 0 {
      HeldIsPinned(all, bs, h, p);
    }
    UnpinReleases(all, bs[h]);
    var after := Unpin(all, bs[h]);
    forall p | p in after ensures after[p].pinCount == |Holders(bs - {h}, p)| {
      HoldersDrop(bs, h, p);
    }
  }
}
