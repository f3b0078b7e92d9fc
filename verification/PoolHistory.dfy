/** What callers can rely on over a whole run, stated on the log of calls and answers. */
module PoolHistory {
  import opened Wrappers
  import opened PoolModel
  import opened PoolInvariant
  import opened PoolSteps
  import opened PoolRuns

  // ---------------------------------------------------------------- address stability

  /** The identity of a block: what a captured graph has baked in. */
  predicate SameAddress(b: Block, b': Block) {
    b'.ptr == b.ptr && b'.size == b.size && b'.kind == b.kind && b'.classIndex == b.classIndex
  }

  function UseCount(s: Pool, p: Ptr): nat {
    if p in s.all then s.all[p].useCount else 0
  }

  /** What a step may do to one address: pinned blocks stay, blocks never change address or
      size, the owner count moves by `change`, and the generation moves only on a grant. */
  ghost predicate Pointwise(s: Pool, s': Pool, p: Ptr, change: int, grant: Option<nat>) {
    && (p in s.all && s.all[p].pinCount > 0 ==> p in s'.all)
    && (p in s.all && p in s'.all ==> SameAddress(s.all[p], s'.all[p]))
    && UseCount(s', p) == UseCount(s, p) + change
    && (p in s'.all ==> if grant.Some? then s'.all[p].generation == grant.value
                        else p in s.all && s'.all[p].generation == s.all[p].generation)
  }

  lemma UnchangedPointwise(s: Pool, s': Pool, p: Ptr)
    requires s'.all == s.all || SameButPins(s.all, s'.all)
    ensures Pointwise(s, s', p, 0, None)
  {}

  lemma AllocatePointwise(s: Pool, others: Batches, t: ThreadId, size: nat, exact: bool, faults: AllocFaults, p: Ptr)
    requires Inv(s, others) && Listed(s) && FaultsOk(s, faults) && p != NULL
    ensures var (s', r) := Allocate(s, t, size, exact, faults);
      if r == Ok(p) then Pointwise(s, s', p, 1, Some(Generation(s, t))) else Pointwise(s, s', p, 0, None)
  {
    AllocateKeeps(s, others, t, size, exact, faults);
    var (s', r) := Allocate(s, t, size, exact, faults);
    if r.Ok? && r.value != NULL {
      GrantedPointwise(s, s', t, r.value, p);
    }
  }

  lemma GrantedPointwise(s: Pool, s': Pool, t: ThreadId, q: Ptr, p: Ptr)
    requires Granted(s, s', t, q) && Placed(s) && Placed(s')
    ensures if p == q then Pointwise(s, s', p, 1, Some(Generation(s, t))) else Pointwise(s, s', p, 0, None)
  {
    assert p in s.all ==> BlockOk(p, s.all[p], s.generation);
    assert p in s'.all ==> BlockOk(p, s'.all[p], s'.generation);
  }

  lemma DeallocatePointwise(s: Pool, others: Batches, q: Ptr, pushFails: bool, p: Ptr)
    requires Inv(s, others) && Listed(s) && p != NULL
    ensures var (s', r) := Deallocate(s, q, pushFails);
      Pointwise(s, s', p, if q == p && r.Ok? then -1 else 0, None)
  {
    DeallocateKeeps(s, others, q, pushFails);
  }

  lemma RetainPointwise(s: Pool, others: Batches, q: Ptr, p: Ptr)
    requires Inv(s, others) && Listed(s)
    ensures var (s', r) := Retain(s, q);
      Pointwise(s, s', p, if q == p && r.Ok? then 1 else 0, None)
  {
    RetainKeeps(s, others, q);
  }

  lemma TrimPointwise(s: Pool, others: Batches, failing: set<Ptr>, p: Ptr)
    requires Inv(s, others)
    ensures Pointwise(s, Trim(s, failing).0, p, 0, None)
  {
    TrimKeeps(s, others, failing);
  }

  /** The caller's own count: addresses handed out and retained, less those given back. */
  function OwnerChange(r: Record, p: Ptr): int {
    match r.event.op
    case OpAllocate(_, _, _) => if r.reply == Address(p) then 1 else 0
    case OpRetain(q) => if q == p && r.reply.Bytes? then 1 else 0
    case OpDeallocate(q, _) => if q == p && r.reply == Done then -1 else 0
    case _ => 0
  }

  predicate Grants(r: Record, p: Ptr) {
    r.event.op.OpAllocate? && r.reply == Address(p)
  }

  /** The effect of any step of any thread on one address. */
  lemma StepPointwise(w: World, e: Event, p: Ptr)
    requires WorldInv(w) && Enabled(w, e) && p != NULL
    ensures var (w', r) := Step(w, e);
      w'.alive ==> Pointwise(w.pool, w'.pool, p, OwnerChange(Record(e, r), p),
                             if Grants(Record(e, r), p) then Some(Generation(w.pool, e.thread)) else None)
  {
    hide Inv, AllocateFromClass, AllocateLarge, TrimClasses, TrimLarge, Unpin;
    var t := e.thread;
    var s := w.pool;
    var others := w.batches;
    match e.op
    case OpAllocate(size, exact, faults) => AllocatePointwise(s, others, t, size, exact, faults, p);
    case OpDeallocate(q, pushFails) => DeallocatePointwise(s, others, q, pushFails, p);
    case OpRetain(q) => RetainPointwise(s, others, q, p);
    case OpBegin => UnchangedPointwise(s, Begin(s, t).0, p);
    case OpDetach => UnchangedPointwise(s, Detach(s, t).0, p);
    case OpFinishCommit(id) => UnchangedPointwise(s, s, p);
    case OpAbortCommit =>
      ReleaseKeeps(s, others, Committing(t));
      UnchangedPointwise(s, Release(s, others[Committing(t)]), p);
    case OpCancel =>
      CancelKeeps(s, others, t);
      UnchangedPointwise(s, Cancel(s, t).0, p);
    case OpRetainForCapture(q, freeze) =>
      RetainForCaptureKeeps(s, others, q, t, freeze);
      UnchangedPointwise(s, RetainForCapture(s, q, t, freeze).0, p);
    case OpTrim(failing) => TrimPointwise(s, others, failing, p);
    case OpDropPool(teardown) => UnchangedPointwise(s, s, p);
    case OpDropLease(id, teardown) =>
      ReleaseKeeps(s, others, Lease(id));
      UnchangedPointwise(s, Release(s, others[Lease(id)]), p);
  }

  /** One step neither moves, resizes nor frees a pinned block unless it closes the pool. */
  lemma StepKeepsPinned(w: World, e: Event, p: Ptr)
    requires WorldInv(w) && Enabled(w, e) && p in w.pool.all && w.pool.all[p].pinCount > 0
    ensures var w' := Step(w, e).0;
      w'.alive ==> p in w'.pool.all && SameAddress(w.pool.all[p], w'.pool.all[p]) && p in w'.pool.backend.live
  {
    assert BlockOk(p, w.pool.all[p], w.pool.generation);
    StepPointwise(w, e, p);
    StepKeeps(w, e);
  }

  lemma PinnedIsLive(w: World, p: Ptr)
    requires WorldInv(w) && p in w.pool.all
    ensures p in w.pool.backend.live
  {}

  /** The same between any two moments of a run, while somebody keeps the block pinned. */
  lemma {:induction false} PinnedAddressIsStable(ws: seq<World>, log: seq<Record>, i: nat, j: nat, p: Ptr)
    requires Run(ws, log) && i <= j < |ws| && ws[j].alive
    requires forall k :: i <= k < j ==> p in ws[k].pool.all && ws[k].pool.all[p].pinCount > 0
    requires i < j || p in ws[i].pool.all
    ensures p in ws[i].pool.all && p in ws[j].pool.all && p in ws[j].pool.backend.live
    ensures SameAddress(ws[i].pool.all[p], ws[j].pool.all[p])
    decreases j - i
  {
    hide WorldInv;
    RunIsSafe(ws, log);
    if i == j {
      PinnedIsLive(ws[i], p);
    } else {
      assert Moves(ws[j - 1], log[j - 1], ws[j]);
      PinnedAddressIsStable(ws, log, i, j - 1, p);
      StepKeepsPinned(ws[j - 1], log[j - 1].event, p);
    }
  }

  predicate Drops(e: Event, id: nat) {
    e.op.OpDropLease? && e.op.id == id
  }

  /** A step that does not drop a lease leaves the pool alive with that lease's batch. */
  lemma StepKeepsLease(w: World, e: Event, id: nat)
    requires WorldInv(w) && Enabled(w, e) && Lease(id) in w.batches && !Drops(e, id)
    ensures var w' := Step(w, e).0;
      w'.alive && Lease(id) in w'.batches && w'.batches[Lease(id)] == w.batches[Lease(id)]
  {
    assert w.batches != map[];
    match e.op
    case OpDropLease(other, teardown) =>
      assert Lease(id) in w.batches - {Lease(other)};
      assert w.batches - {Lease(other)} != map[];
    case _ =>
  }

  /** Until a lease is dropped, every block it holds keeps its address and its memory, whatever
      all other threads do, the destruction of the pool object included. */
  lemma {:induction false} LeaseKeepsAddresses(ws: seq<World>, log: seq<Record>, i: nat, j: nat, id: nat, p: Ptr)
    requires Run(ws, log) && i <= j < |ws|
    requires Lease(id) in ws[i].batches && p in ws[i].batches[Lease(id)]
    requires forall k :: i <= k < j ==> !Drops(log[k].event, id)
    ensures ws[j].alive && Lease(id) in ws[j].batches && ws[j].batches[Lease(id)] == ws[i].batches[Lease(id)]
    ensures p in ws[i].pool.all && p in ws[j].pool.all && ws[j].pool.all[p].pinCount > 0
    ensures p in ws[j].pool.backend.live && SameAddress(ws[i].pool.all[p], ws[j].pool.all[p])
    decreases j - i
  {
    RunIsSafe(ws, log);
    assert WorldInv(ws[i]) && WorldInv(ws[j]);
    if i == j {
      HeldIsPinned(ws[i].pool.all, AllBatches(ws[i].pool, ws[i].batches), Lease(id), p);
    } else {
      LeaseKeepsAddresses(ws, log, i, j - 1, id, p);
      assert Moves(ws[j - 1], log[j - 1], ws[j]);
      StepKeepsLease(ws[j - 1], log[j - 1].event, id);
      StepKeepsPinned(ws[j - 1], log[j - 1].event, p);
      HeldIsPinned(ws[j].pool.all, AllBatches(ws[j].pool, ws[j].batches), Lease(id), p);
    }
  }

  // ---------------------------------------------------------------- backend memory

  /** What the backend still holds for the pool although the pool has forgotten it. */
  function Unreturned(s: Pool): set<Ptr> {
    s.backend.live - s.all.Keys
  }

  /** The pointer of a failed allocation whose clean-up free was refused. */
  ghost function Leak(w: World, r: Record): set<Ptr> {
    match r.event.op
    case OpAllocate(size, exact, faults) =>
      if r.reply.Threw? && LeaksIfThrown(w.pool, size, exact, faults) then {faults.malloc.value} else {}
    case _ => {}
  }

  /** While the pool lives, only such allocations lose memory; when it closes, what it loses
      besides is what the backend refused to take back. */
  lemma StepLedger(w: World, e: Event)
    requires WorldInv(w) && Enabled(w, e)
    ensures var (w', r) := Step(w, e);
      && Leak(w, Record(e, r)) !! w.pool.backend.live
      && (w'.alive ==> Unreturned(w'.pool) == Unreturned(w.pool) + Leak(w, Record(e, r)))
      && (!w'.alive ==>
            (e.op.OpDropPool? || e.op.OpDropLease?)
            && w'.pool.backend.live
            == Unreturned(w.pool) + (if e.op.teardown.drained then w.pool.all.Keys * e.op.teardown.failing
                                     else w.pool.all.Keys))
  {
    hide Inv, AllocateFromClass, AllocateLarge, TrimClasses, TrimLarge, Unpin, Serves, NoneServes, Destroy,
      Listed, AlignUp, Remove;
    var t := e.thread;
    var s := w.pool;
    match e.op
    case OpAllocate(size, exact, faults) => AllocateStepLedger(w, e);
    case OpDeallocate(q, pushFails) => DeallocateKeeps(s, w.batches, q, pushFails);
    case OpRetain(q) => RetainKeeps(s, w.batches, q);
    case OpBegin => BeginKeeps(s, w.batches, t);
    case OpDetach => DetachKeeps(s, w.batches, t);
    case OpFinishCommit(id) =>
    case OpAbortCommit => ReleaseKeeps(s, w.batches, Committing(t));
    case OpCancel => CancelKeeps(s, w.batches, t);
    case OpRetainForCapture(q, freeze) => RetainForCaptureKeeps(s, w.batches, q, t, freeze);
    case OpTrim(failing) => TrimKeeps(s, w.batches, failing);
    case OpDropPool(teardown) =>
      BlocksAreLive(s, w.batches);
      DestroyLedger(s, teardown.drained, teardown.failing);
    case OpDropLease(id, teardown) =>
      ReleaseKeeps(s, w.batches, Lease(id));
      BlocksAreLive(s, w.batches);
      DestroyLedger(Release(s, w.batches[Lease(id)]), teardown.drained, teardown.failing);
  }

  lemma AllocateLedger(s: Pool, others: Batches, t: ThreadId, size: nat, exact: bool, faults: AllocFaults)
    requires Inv(s, others) && Listed(s) && FaultsOk(s, faults)
    ensures var (s', r) := Allocate(s, t, size, exact, faults);
      Unreturned(s')
      == Unreturned(s) + (if r.Throw? && LeaksIfThrown(s, size, exact, faults) then {faults.malloc.value} else {})
  {
    hide Inv, Allocate, Serves, NoneServes, Listed;
    AllocateKeeps(s, others, t, size, exact, faults);
    ThrownLeaksExactly(s, others, t, size, exact, faults);
    BlocksAreLive(s, others);
    BlocksAreLive(Allocate(s, t, size, exact, faults).0, others);
  }

  lemma AllocateStepLedger(w: World, e: Event)
    requires WorldInv(w) && Enabled(w, e) && e.op.OpAllocate?
    ensures var (w', r) := Step(w, e);
      && w'.alive && Leak(w, Record(e, r)) !! w.pool.backend.live
      && Unreturned(w'.pool) == Unreturned(w.pool) + Leak(w, Record(e, r))
  {
    hide Inv, Allocate, LeaksIfThrown, Unreturned;
    var (s', r) := Allocate(w.pool, e.thread, e.op.size, e.op.exact, e.op.faults);
    assert Step(w, e) == (w.(pool := s'), AddressReply(r));
    AllocateLedger(w.pool, w.batches, e.thread, e.op.size, e.op.exact, e.op.faults);
    if LeaksIfThrown(w.pool, e.op.size, e.op.exact, e.op.faults) {
      LeakIsGranted(w.pool, e.op.size, e.op.exact, e.op.faults);
    }
  }

  lemma LeakIsGranted(s: Pool, size: nat, exact: bool, faults: AllocFaults)
    requires FaultsOk(s, faults) && LeaksIfThrown(s, size, exact, faults)
    ensures faults.malloc.Some? && faults.malloc.value !in s.backend.live
  {}

  lemma BlocksAreLive(s: Pool, others: Batches)
    requires Inv(s, others)
    ensures s.all.Keys <= s.backend.live
  {}

  lemma DestroyLedger(s: Pool, drained: bool, failing: set<Ptr>)
    requires s.all.Keys <= s.backend.live
    ensures Destroy(s, drained, failing).live == Unreturned(s) + (if drained then s.all.Keys * failing else s.all.Keys)
  {}

  /** The same over a whole run, whatever the backend refuses on the way: as long as the pool
      lives, the backend holds its blocks and the leaked pointers, no more and no less. */
  lemma {:induction false} LedgerIsExact(ws: seq<World>, log: seq<Record>, n: nat)
    requires Run(ws, log) && n < |ws| && ws[n].alive
    ensures forall p :: p in Unreturned(ws[n].pool) <==> exists k :: 0 <= k < n && p in Leak(ws[k], log[k])
  {
    hide WorldInv, Step, Enabled, Leak, Unreturned;
    RunIsSafe(ws, log);
    if n == 0 {
      NothingUnreturned();
    } else {
      assert Moves(ws[n - 1], log[n - 1], ws[n]);
      PrefixRun(ws, log, n - 1);
      LedgerIsExact(ws, log, n - 1);
      assert log[n - 1] == Record(log[n - 1].event, log[n - 1].reply);
      StepLedger(ws[n - 1], log[n - 1].event);
    }
  }

  lemma NothingUnreturned()
    ensures Unreturned(START.pool) == {}
  {}

  /** No free that the pool cannot retry is refused: neither one that undoes a failed
      allocation, nor one that closes the pool. */
  predicate FreesSucceed(e: Event) {
    match e.op
    case OpAllocate(_, _, faults) => !faults.freeFails
    case OpDropPool(teardown) => teardown.drained && teardown.failing == {}
    case OpDropLease(_, teardown) => teardown.drained && teardown.failing == {}
    case _ => true
  }

  lemma NothingMissing(s: Pool)
    requires s.all.Keys <= s.backend.live && Unreturned(s) == {}
    ensures s.backend.live == s.all.Keys
  {
    assert forall p :: p in s.backend.live && p !in s.all ==> p in Unreturned(s);
  }

  lemma StepConserves(w: World, e: Event)
    requires WorldInv(w) && Enabled(w, e) && FreesSucceed(e)
    requires w.pool.backend.live == w.pool.all.Keys
    ensures var w' := Step(w, e).0; w'.pool.backend.live == w'.pool.all.Keys
  {
    hide Step, Enabled, NoneServes;
    StepLedger(w, e);
    StepKeeps(w, e);
    var (w', r) := Step(w, e);
    assert Leak(w, Record(e, r)) == {};
    if w'.alive {
      BlocksAreLive(w'.pool, w'.batches);
      NothingMissing(w'.pool);
    }
  }

  /** The backend holds exactly the pool's blocks, after every failed allocation and every
      trim, successful or not; once the last owner is gone it holds nothing. */
  lemma {:induction false} MemoryIsConserved(ws: seq<World>, log: seq<Record>)
    requires Run(ws, log)
    requires forall i :: 0 <= i < |log| ==> FreesSucceed(log[i].event)
    ensures forall i :: 0 <= i < |ws| ==> ws[i].pool.backend.live == ws[i].pool.all.Keys
    ensures forall i :: 0 <= i < |ws| && !ws[i].alive ==> ws[i].pool.backend.live == {}
  {
    RunIsSafe(ws, log);
    var n := 0;
    while n < |log|
      invariant 0 <= n <= |log|
      invariant forall i :: 0 <= i <= n ==> ws[i].pool.backend.live == ws[i].pool.all.Keys
    {
      assert Moves(ws[n], log[n], ws[n + 1]);
      StepConserves(ws[n], log[n].event);
      n := n + 1;
    }
    forall i | 0 <= i < |ws| && !ws[i].alive ensures ws[i].pool.backend.live == {} {
      assert WorldInv(ws[i]);
    }
  }

  // ---------------------------------------------------------------- logical owners

  function OwnersOf(log: seq<Record>, p: Ptr): int {
    if log == [] then 0 else OwnersOf(log[..|log| - 1], p) + OwnerChange(log[|log| - 1], p)
  }

  /** A block's use count is what its callers' own books say; an address outside the pool has
      no owner left. */
  lemma {:induction false} OwnersAreCounted(ws: seq<World>, log: seq<Record>, p: Ptr)
    requires Run(ws, log) && ws[|log|].alive && p != NULL
    ensures UseCount(ws[|log|].pool, p) == OwnersOf(log, p)
    decreases |log|
  {
    RunIsSafe(ws, log);
    if log == [] {
    } else {
      var n := |log| - 1;
      assert Moves(ws[n], log[n], ws[n + 1]);
      PrefixRun(ws, log, n);
      OwnersAreCounted(ws[..n + 1], log[..n], p);
      StepPointwise(ws[n], log[n].event, p);
      assert log[n] == Record(log[n].event, log[n].reply);
    }
  }

  lemma PrefixRun(ws: seq<World>, log: seq<Record>, n: nat)
    requires Run(ws, log) && n <= |log|
    ensures Run(ws[..n + 1], log[..n])
    ensures n < |log| ==> ws[n].alive
  {
    forall i | 0 <= i < n ensures Moves(ws[..n + 1][i], log[..n][i], ws[..n + 1][i + 1]) {
      assert Moves(ws[i], log[i], ws[i + 1]);
    }
    if n < |log| {
      assert Moves(ws[n], log[n], ws[n + 1]);
    }
  }

  /** Two owners never share a block they did not both ask for: an address is handed out only
      while the callers' books show no owner of it. */
  lemma HandedOutOnlyWhenFree(ws: seq<World>, log: seq<Record>, n: nat)
    requires Run(ws, log) && n < |log| && log[n].reply.Address? && log[n].reply.ptr != NULL
    ensures OwnersOf(log[..n], log[n].reply.ptr) == 0
  {
    var p := log[n].reply.ptr;
    RunIsSafe(ws, log);
    assert Moves(ws[n], log[n], ws[n + 1]);
    PrefixRun(ws, log, n);
    OwnersAreCounted(ws[..n + 1], log[..n], p);
    AddressIsGranted(ws[n], log[n].event);
  }

  lemma AddressIsGranted(w: World, e: Event)
    requires WorldInv(w) && Enabled(w, e) && Step(w, e).1.Address? && Step(w, e).1.ptr != NULL
    ensures e.op.OpAllocate? && UseCount(w.pool, Step(w, e).1.ptr) == 0
  {
    if e.op.OpAllocate? {
      AllocateKeeps(w.pool, w.batches, e.thread, e.op.size, e.op.exact, e.op.faults);
    }
  }

  /** Giving back an address more often than it was taken is refused and changes nothing. */
  lemma ExcessReleaseIsRefused(ws: seq<World>, log: seq<Record>, n: nat)
    requires Run(ws, log) && n < |log| && log[n].event.op.OpDeallocate? && log[n].event.op.ptr != NULL
    requires OwnersOf(log[..n], log[n].event.op.ptr) <= 0
    ensures log[n].reply.Threw? && ws[n + 1] == ws[n]
  {
    var p := log[n].event.op.ptr;
    RunIsSafe(ws, log);
    assert Moves(ws[n], log[n], ws[n + 1]);
    PrefixRun(ws, log, n);
    OwnersAreCounted(ws[..n + 1], log[..n], p);
    assert WorldInv(ws[n]);
    DeallocateKeeps(ws[n].pool, ws[n].batches, p, log[n].event.op.pushFails);
  }

  lemma StepAccepts(w: World, e: Event)
    requires WorldInv(w) && Enabled(w, e) && e.op.OpDeallocate? && e.op.ptr != NULL
    requires UseCount(w.pool, e.op.ptr) >= 1
    ensures var r := Step(w, e).1;
      && (r == Done <==>
            UseCount(w.pool, e.op.ptr) >= 2 || w.pool.all[e.op.ptr].kind != SizeClass || !e.op.pushFails)
      && (r != Done ==> r == Threw(BadAlloc))
  {
    hide Inv;
    DeallocateKeeps(w.pool, w.batches, e.op.ptr, e.op.pushFails);
  }

  /** And a release the callers' books entitle to is accepted; only the last owner's can fail, when
      a size-class block meets a free list that cannot grow. */
  lemma ReleaseIsAccepted(ws: seq<World>, log: seq<Record>, n: nat)
    requires Run(ws, log) && n < |log| && log[n].event.op.OpDeallocate? && log[n].event.op.ptr != NULL
    requires OwnersOf(log[..n], log[n].event.op.ptr) >= 1
    ensures var p := log[n].event.op.ptr;
      && p in ws[n].pool.all
      && (log[n].reply == Done <==>
            OwnersOf(log[..n], p) >= 2 || ws[n].pool.all[p].kind != SizeClass || !log[n].event.op.pushFails)
      && (log[n].reply != Done ==> log[n].reply == Threw(BadAlloc))
      && (log[n].reply == Done ==> OwnersOf(log[..n + 1], p) == OwnersOf(log[..n], p) - 1)
  {
    hide WorldInv, Step, Enabled;
    var p := log[n].event.op.ptr;
    RunIsSafe(ws, log);
    assert Moves(ws[n], log[n], ws[n + 1]);
    PrefixRun(ws, log, n);
    OwnersAreCounted(ws[..n + 1], log[..n], p);
    StepAccepts(ws[n], log[n].event);
    assert log[..n + 1][..n] == log[..n];
  }
}
