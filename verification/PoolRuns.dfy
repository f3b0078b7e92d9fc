/** Interleaved runs of the pool: any number of threads, one critical section per step, with
    the batch of a commit travelling in a local variable between its two critical sections. */
module PoolRuns {
  import opened Wrappers
  import opened PoolModel
  import opened PoolInvariant
  import opened PoolSteps

  /** What the backend answers while the last owner closes the pool. */
  datatype Teardown = Teardown(drained: bool, failing: set<Ptr>)

  datatype Op =
    | OpAllocate(size: nat, exact: bool, faults: AllocFaults)
    | OpDeallocate(ptr: Ptr, pushFails: bool)
    | OpRetain(ptr: Ptr)
    | OpBegin
    | OpDetach                // first critical section of a commit
    | OpFinishCommit(id: nat) // the lease was built
    | OpAbortCommit           // building it threw: second critical section
    | OpCancel
    | OpRetainForCapture(ptr: Ptr, freeze: FreezeFaults)
    | OpTrim(failing: set<Ptr>)
    | OpDropPool(teardown: Teardown)
    | OpDropLease(id: nat, teardown: Teardown)

  datatype Event = Event(thread: ThreadId, op: Op)

  datatype Reply = Done | Address(ptr: Ptr) | Bytes(size: nat) | Predates(answer: bool) | Batch(any: bool)
                 | Threw(error: Error)

  /** `handle`: the user's pool object still exists.  `alive`: `~State` has not run. */
  datatype World = World(pool: Pool, batches: Batches, handle: bool, alive: bool)

  const START: World := World(EMPTY_POOL, map[], true, true)

  /** Callers do not use a destroyed pool object, nor destroy it under a running call. */
  ghost predicate Enabled(w: World, e: Event) {
    && w.alive
    && match e.op
       case OpFinishCommit(id) => w.handle && Committing(e.thread) in w.batches && Lease(id) !in w.batches
       case OpAbortCommit => w.handle && Committing(e.thread) in w.batches
       case OpDropLease(id, _) => Lease(id) in w.batches && Committing(e.thread) !in w.batches
       case OpDropPool(_) => w.handle && forall t :: Committing(t) !in w.batches
       case OpAllocate(_, _, faults) =>
         w.handle && Committing(e.thread) !in w.batches && FaultsOk(w.pool, faults)
       case _ => w.handle && Committing(e.thread) !in w.batches
  }

  /** The last shared owner runs `~State`. */
  function Close(w: World, teardown: Teardown): World {
    if w.handle || w.batches != map[] then w
    else World(EMPTY_POOL.(backend := Destroy(w.pool, teardown.drained, teardown.failing)), map[], false, false)
  }

  function AddressReply(r: Outcome<Ptr, Error>): Reply {
    match r
    case Ok(p) => Address(p)
    case Throw(e) => Threw(e)
  }

  function BytesReply(r: Outcome<nat, Error>): Reply {
    match r
    case Ok(n) => Bytes(n)
    case Throw(e) => Threw(e)
  }

  function PredatesReply(r: Outcome<bool, Error>): Reply {
    match r
    case Ok(b) => Predates(b)
    case Throw(e) => Threw(e)
  }

  function DoneReply(r: Outcome<(), Error>): Reply {
    match r
    case Ok(_) => Done
    case Throw(e) => Threw(e)
  }

  function Step(w: World, e: Event): (World, Reply)
    requires Listed(w.pool) && Enabled(w, e)
  {
    var t := e.thread;
    match e.op
    case OpAllocate(size, exact, faults) =>
      var (s, r) := Allocate(w.pool, t, size, exact, faults);
      (w.(pool := s), AddressReply(r))
    case OpDeallocate(p, pushFails) =>
      var (s, r) := Deallocate(w.pool, p, pushFails);
      (w.(pool := s), DoneReply(r))
    case OpRetain(p) =>
      var (s, r) := Retain(w.pool, p);
      (w.(pool := s), BytesReply(r))
    case OpBegin =>
      var (s, r) := Begin(w.pool, t);
      (w.(pool := s), DoneReply(r))
    case OpDetach =>
      var (s, r) := Detach(w.pool, t);
      if r.Throw? then (w.(pool := s), Threw(r.error))
      else if r.value.None? then (w.(pool := s), Batch(false))
      else (w.(pool := s, batches := w.batches[Committing(t) := r.value.value]), Batch(true))
    case OpFinishCommit(id) =>
      (w.(batches := (w.batches - {Committing(t)})[Lease(id) := w.batches[Committing(t)]]), Done)
    case OpAbortCommit =>
      (w.(pool := Release(w.pool, w.batches[Committing(t)]), batches := w.batches - {Committing(t)}), Threw(BadAlloc))
    case OpCancel =>
      var (s, r) := Cancel(w.pool, t);
      (w.(pool := s), DoneReply(r))
    case OpRetainForCapture(p, freeze) =>
      var (s, r) := RetainForCapture(w.pool, p, t, freeze);
      (w.(pool := s), PredatesReply(r))
    case OpTrim(failing) =>
      var (s, r) := Trim(w.pool, failing);
      (w.(pool := s), DoneReply(r))
    case OpDropPool(teardown) =>
      (Close(w.(handle := false), teardown), Done)
    case OpDropLease(id, teardown) =>
      (Close(w.(pool := Release(w.pool, w.batches[Lease(id)]), batches := w.batches - {Lease(id)}), teardown), Done)
  }

  // ---------------------------------------------------------------- the invariant of every run

  ghost predicate WorldInv(w: World) {
    && !w.pool.backend.misused
    && Listed(w.pool)
    && (w.alive ==> Inv(w.pool, w.batches) && (w.handle || w.batches != map[]))
    && (!w.alive ==> w.pool == EMPTY_POOL.(backend := w.pool.backend) && w.batches == map[] && !w.handle)
  }

  lemma LastOwnerCloses(w: World, teardown: Teardown)
    requires w.alive && Inv(w.pool, w.batches)
    ensures WorldInv(Close(w, teardown))
  {
    PlacedIsListed(w.pool);
    DestroyFrees(w.pool, w.batches, teardown.drained, teardown.failing);
  }

  lemma StepKeeps(w: World, e: Event)
    requires WorldInv(w) && Enabled(w, e)
    ensures WorldInv(Step(w, e).0)
  {
    var t := e.thread;
    var w' := Step(w, e).0;
    match e.op
    case OpAllocate(size, exact, faults) =>
      AllocateKeeps(w.pool, w.batches, t, size, exact, faults);
      PlacedIsListed(w'.pool);
    case OpDeallocate(p, pushFails) =>
      DeallocateKeeps(w.pool, w.batches, p, pushFails);
      PlacedIsListed(w'.pool);
    case OpRetain(p) =>
      RetainKeeps(w.pool, w.batches, p);
      PlacedIsListed(w'.pool);
    case OpBegin =>
      BeginKeeps(w.pool, w.batches, t);
      PlacedIsListed(w'.pool);
    case OpDetach =>
      DetachKeeps(w.pool, w.batches, t);
      PlacedIsListed(w'.pool);
    case OpFinishCommit(id) =>
      LeaseKeeps(w.pool, w.batches, Committing(t), Lease(id));
    case OpAbortCommit =>
      ReleaseKeeps(w.pool, w.batches, Committing(t));
      PlacedIsListed(w'.pool);
    case OpCancel =>
      CancelKeeps(w.pool, w.batches, t);
      PlacedIsListed(w'.pool);
    case OpRetainForCapture(p, freeze) =>
      RetainForCaptureKeeps(w.pool, w.batches, p, t, freeze);
      PlacedIsListed(w'.pool);
    case OpTrim(failing) =>
      TrimKeeps(w.pool, w.batches, failing);
      PlacedIsListed(w'.pool);
    case OpDropPool(teardown) =>
      LastOwnerCloses(w.(handle := false), teardown);
    case OpDropLease(id, teardown) =>
      ReleaseKeeps(w.pool, w.batches, Lease(id));
      LastOwnerCloses(w.(pool := Release(w.pool, w.batches[Lease(id)]), batches := w.batches - {Lease(id)}), teardown);
  }

  // ---------------------------------------------------------------- runs

  datatype Record = Record(event: Event, reply: Reply)

  /** `ws` are the worlds visited, `log` what each step was asked and answered. */
  ghost predicate Run(ws: seq<World>, log: seq<Record>) {
    && |ws| == |log| + 1
    && ws[0] == START
    && forall i :: 0 <= i < |log| ==> Moves(ws[i], log[i], ws[i + 1])
  }

  ghost predicate Moves(w: World, r: Record, w': World) {
    Listed(w.pool) && Enabled(w, r.event) && Step(w, r.event) == (w', r.reply)
  }

  lemma StartOk()
    ensures WorldInv(START)
  {
    assert forall p :: p !in START.pool.all;
  }

  /** Every reachable world satisfies the invariant: placement, exact pin counts over all
      interleavings, and no pointer ever freed that the backend did not hold. */
  lemma {:induction false} RunIsSafe(ws: seq<World>, log: seq<Record>)
    requires Run(ws, log)
    ensures forall i :: 0 <= i < |ws| ==> WorldInv(ws[i])
  {
    StartOk();
    var n := 0;
    while n < |log|
      invariant 0 <= n <= |log|
      invariant forall i :: 0 <= i <= n ==> WorldInv(ws[i])
    {
      assert Moves(ws[n], log[n], ws[n + 1]);
      StepKeeps(ws[n], log[n].event);
      n := n + 1;
    }
  }
}
