/** The in-place code in interleaved runs: block objects, the local batches of threads inside a
    commit, and leases, stepping together.  Every critical section of any thread does to them
    exactly what `PoolRuns.Step` says, so everything proved of runs holds of the code. */
module PoolMachine {
  import opened Wrappers
  import opened PoolModel
  import opened PoolInvariant
  import opened PoolSteps
  import opened PoolRuns
  import opened PoolState
  import M = PoolModel

  type Blocks = map<Ptr, PoolState.Block>
  type Locals = map<ThreadId, seq<PoolState.Block>>
  type Leases = map<nat, PinState>

  /** Local batches and leases name blocks of the pool, object by object. */
  ghost predicate HeldIn(all: Blocks, state: State, committing: Locals, leases: Leases, batches: Batches) {
    && (forall t :: t in committing <==> Committing(t) in batches)
    && (forall t :: t in committing ==> ListedIn(all, committing[t], batches[Committing(t)]))
    && (forall id :: id in leases <==> Lease(id) in batches)
    && (forall id :: id in leases ==>
          && leases[id].owner == state && leases[id].ptrs == batches[Lease(id)]
          && ListedIn(all, leases[id].blocks, batches[Lease(id)]))
  }

  lemma HeldByCommit(all: Blocks, state: State, committing: Locals, leases: Leases, batches: Batches,
                     t: ThreadId, blocks: seq<PoolState.Block>, ptrs: seq<Ptr>)
    requires HeldIn(all, state, committing, leases, batches) && ListedIn(all, blocks, ptrs)
    ensures HeldIn(all, state, committing[t := blocks], leases, batches[Committing(t) := ptrs])
  {
    hide ListedIn;
  }

  lemma CommitHolds(all: Blocks, state: State, committing: Locals, leases: Leases, batches: Batches, t: ThreadId)
    requires HeldIn(all, state, committing, leases, batches) && Committing(t) in batches
    ensures t in committing && ListedIn(all, committing[t], batches[Committing(t)])
    ensures HeldIn(all, state, committing - {t}, leases, batches - {Committing(t)})
  {
    hide ListedIn;
  }

  lemma HeldByLease(all: Blocks, state: State, committing: Locals, leases: Leases, batches: Batches, id: nat,
                    lease: PinState)
    requires HeldIn(all, state, committing, leases, batches)
    requires lease.owner == state && ListedIn(all, lease.blocks, lease.ptrs)
    ensures HeldIn(all, state, committing, leases[id := lease], batches[Lease(id) := lease.ptrs])
  {
    hide ListedIn;
  }

  lemma LeaseHolds(all: Blocks, state: State, committing: Locals, leases: Leases, batches: Batches, id: nat)
    requires HeldIn(all, state, committing, leases, batches) && Lease(id) in batches
    ensures id in leases && leases[id].owner == state && leases[id].ptrs == batches[Lease(id)]
    ensures ListedIn(all, leases[id].blocks, leases[id].ptrs)
    ensures HeldIn(all, state, committing, leases - {id}, batches - {Lease(id)})
  {
    hide ListedIn;
  }

  class Machine {
    const state: State
    var committing: Locals // the local `blocks` of commits under way
    var leases: Leases
    var handle: bool
    var alive: bool
    ghost var batches: Batches
    ghost var worlds: seq<World>
    ghost var log: seq<Record>

    ghost function Now(): World
      reads `handle, `alive, `batches, state
    {
      if alive then World(state.model, batches, handle, true)
      else World(EMPTY_POOL.(backend := state.model.backend), map[], false, false)
    }

    ghost predicate Held()
      reads `committing, `leases, `batches, state
    {
      HeldIn(state.allBlocks, state, committing, leases, batches)
    }

    ghost predicate Valid()
      reads `committing, `leases, `handle, `alive, `batches, state, state.allBlocks.Values
    {
      WorldInv(Now()) && (alive ==> state.Valid() && Held())
    }

    constructor ()
      ensures Valid() && Recorded() && Now() == START && log == []
      ensures fresh(state) && state.allBlocks == map[]
    {
      state := new State();
      committing, leases, handle, alive, batches := map[], map[], true, true, map[];
      worlds, log := [START], [];
      new;
      StartOk();
    }

    lemma CurrentIsApart()
      requires alive && WorldInv(Now())
      ensures Current !in batches
    {}

    /** After a section that replaced no object: what is held is still pinned, hence still in the
        map, hence still the same objects. */
    lemma StillHeld(before: Blocks)
      requires alive && state.Valid() && WorldInv(Now()) && state.SameObjects(before)
      requires HeldIn(before, state, committing, leases, batches)
      ensures Held()
    {
      state.FieldsMatch();
      forall h, p | h in batches && p in batches[h] ensures p in state.allBlocks {
        HeldIsPinned(state.model.all, AllBatches(state.model, batches), h, p);
      }
      forall t | t in committing ensures ListedIn(state.allBlocks, committing[t], batches[Committing(t)]) {
        StillListed(before, state.allBlocks, committing[t], batches[Committing(t)]);
      }
      forall id | id in leases ensures ListedIn(state.allBlocks, leases[id].blocks, batches[Lease(id)]) {
        StillListed(before, state.allBlocks, leases[id].blocks, batches[Lease(id)]);
      }
    }

    method Allocate(t: ThreadId, size: nat, exact: bool, faults: AllocFaults) returns (reply: Reply)
      requires Valid() && Enabled(Now(), Event(t, OpAllocate(size, exact, faults)))
      modifies state, state.allBlocks.Values
      ensures Valid() && (Now(), reply) == Step(old(Now()), Event(t, OpAllocate(size, exact, faults)))
      ensures fresh(state.allBlocks.Values - old(state.allBlocks.Values))
    {
      hide WorldInv, ListedIn, HeldIn, M.Allocate;
      StepKeeps(Now(), Event(t, OpAllocate(size, exact, faults)));
      state.ModelIsListed();
      ghost var before := state.allBlocks;
      var r := state.AllocateImpl(size, exact, t, faults);
      StillHeld(before);
      reply := AddressReply(r);
    }

    method Deallocate(t: ThreadId, p: Ptr, pushFails: bool) returns (reply: Reply)
      requires Valid() && Enabled(Now(), Event(t, OpDeallocate(p, pushFails)))
      modifies state, state.allBlocks.Values
      ensures Valid() && (Now(), reply) == Step(old(Now()), Event(t, OpDeallocate(p, pushFails)))
      ensures fresh(state.allBlocks.Values - old(state.allBlocks.Values))
    {
      hide WorldInv, ListedIn, HeldIn, M.Deallocate;
      StepKeeps(Now(), Event(t, OpDeallocate(p, pushFails)));
      state.ModelIsListed();
      ghost var before := state.allBlocks;
      var r := state.Deallocate(p, pushFails);
      StillHeld(before);
      reply := DoneReply(r);
    }

    method Retain(t: ThreadId, p: Ptr) returns (reply: Reply)
      requires Valid() && Enabled(Now(), Event(t, OpRetain(p)))
      modifies state, state.allBlocks.Values
      ensures Valid() && (Now(), reply) == Step(old(Now()), Event(t, OpRetain(p)))
      ensures fresh(state.allBlocks.Values - old(state.allBlocks.Values))
    {
      hide WorldInv, ListedIn, HeldIn, M.Retain;
      StepKeeps(Now(), Event(t, OpRetain(p)));
      state.ModelIsListed();
      ghost var before := state.allBlocks;
      var r := state.RetainAllocation(p);
      StillHeld(before);
      reply := BytesReply(r);
    }

    method Begin(t: ThreadId) returns (reply: Reply)
      requires Valid() && Enabled(Now(), Event(t, OpBegin))
      modifies state
      ensures Valid() && (Now(), reply) == Step(old(Now()), Event(t, OpBegin))
      ensures fresh(state.allBlocks.Values - old(state.allBlocks.Values))
    {
      hide WorldInv, ListedIn, HeldIn, M.Begin;
      StepKeeps(Now(), Event(t, OpBegin));
      ghost var before := state.allBlocks;
      var r := state.BeginPinMode(t);
      StillHeld(before);
      reply := DoneReply(r);
    }

    method Cancel(t: ThreadId) returns (reply: Reply)
      requires Valid() && Enabled(Now(), Event(t, OpCancel))
      modifies state, state.allBlocks.Values
      ensures Valid() && (Now(), reply) == Step(old(Now()), Event(t, OpCancel))
      ensures fresh(state.allBlocks.Values - old(state.allBlocks.Values))
    {
      hide WorldInv, ListedIn, HeldIn, M.Cancel;
      StepKeeps(Now(), Event(t, OpCancel));
      ghost var before := state.allBlocks;
      var r := state.CancelPinMode(t);
      StillHeld(before);
      reply := DoneReply(r);
    }

    method RetainForCapture(t: ThreadId, p: Ptr, freeze: FreezeFaults) returns (reply: Reply)
      requires Valid() && Enabled(Now(), Event(t, OpRetainForCapture(p, freeze)))
      modifies state, state.allBlocks.Values
      ensures Valid() && (Now(), reply) == Step(old(Now()), Event(t, OpRetainForCapture(p, freeze)))
      ensures fresh(state.allBlocks.Values - old(state.allBlocks.Values))
    {
      hide WorldInv, ListedIn, HeldIn, M.RetainForCapture;
      StepKeeps(Now(), Event(t, OpRetainForCapture(p, freeze)));
      ghost var before := state.allBlocks;
      var r := state.RetainForCapture(p, t, freeze);
      StillHeld(before);
      reply := PredatesReply(r);
    }

    method Trim(t: ThreadId, failing: set<Ptr>) returns (reply: Reply)
      requires Valid() && Enabled(Now(), Event(t, OpTrim(failing)))
      modifies state
      ensures Valid() && (Now(), reply) == Step(old(Now()), Event(t, OpTrim(failing)))
      ensures fresh(state.allBlocks.Values - old(state.allBlocks.Values))
    {
      hide ListedIn, HeldIn, M.Trim, Sound, Inv, M.Listed;
      StepKeeps(Now(), Event(t, OpTrim(failing)));
      InvIsSound(state.model, batches);
      ghost var before := state.allBlocks;
      var r := state.Trim(failing);
      StillHeld(before);
      reply := DoneReply(r);
    }

    // ----------------------------------------------------- the two critical sections of a commit

    method Detach(t: ThreadId) returns (reply: Reply)
      requires Valid() && Enabled(Now(), Event(t, OpDetach))
      modifies `committing, `leases, `handle, `alive, `batches, state
      ensures Valid() && (Now(), reply) == Step(old(Now()), Event(t, OpDetach))
      ensures fresh(state.allBlocks.Values - old(state.allBlocks.Values))
    {
      hide WorldInv, ListedIn, HeldIn, M.Detach, State.Valid, AllBatches;
      StepKeeps(Now(), Event(t, OpDetach));
      ghost var before := state.allBlocks;
      ghost var q := M.Detach(state.model, t).1;
      var r := state.DetachFrozen(t);
      match r {
        case Throw(e) =>
          StillHeld(before);
          return Threw(e);
        case Ok(None) =>
          StillHeld(before);
          return Batch(false);
        case Ok(Some(blocks)) =>
          HeldByCommit(before, state, committing, leases, batches, t, blocks, q.value.value);
          committing := committing[t := blocks];
          batches := batches[Committing(t) := q.value.value];
          StillHeld(before);
          return Batch(true);
      }
    }

    /** The lease was built: the batch moves into its pin state. */
    method FinishCommit(t: ThreadId, id: nat) returns (reply: Reply)
      requires Valid() && Enabled(Now(), Event(t, OpFinishCommit(id)))
      modifies `committing, `leases, `batches
      ensures Valid() && (Now(), reply) == Step(old(Now()), Event(t, OpFinishCommit(id)))
      ensures fresh(state.allBlocks.Values - old(state.allBlocks.Values))
    {
      hide WorldInv, ListedIn, HeldIn;
      StepKeeps(Now(), Event(t, OpFinishCommit(id)));
      CommitHolds(state.allBlocks, state, committing, leases, batches, t);
      var lease := new PinState(state, committing[t], batches[Committing(t)]);
      committing := committing - {t};
      HeldByLease(state.allBlocks, state, committing, leases, batches - {Committing(t)}, id, lease);
      leases := leases[id := lease];
      batches := (batches - {Committing(t)})[Lease(id) := batches[Committing(t)]];
      return Done;
    }

    /** Building the lease threw, before or after the batch was moved into a pin state; other
        threads may have stepped since the batch was detached. */
    method AbortCommit(t: ThreadId, fault: CommitFault) returns (reply: Reply)
      requires Valid() && Enabled(Now(), Event(t, OpAbortCommit))
      modifies `committing, `leases, `handle, `alive, `batches, state, state.allBlocks.Values
      ensures Valid() && (Now(), reply) == Step(old(Now()), Event(t, OpAbortCommit))
      ensures fresh(state.allBlocks.Values - old(state.allBlocks.Values))
    {
      hide WorldInv, HeldIn, ListedIn, M.Release, State.Valid, AllBatches;
      StepKeeps(Now(), Event(t, OpAbortCommit));
      CommitHolds(state.allBlocks, state, committing, leases, batches, t);
      ghost var before := state.allBlocks;
      AbandonCommit(state, committing[t], batches[Committing(t)], fault);
      committing := committing - {t};
      batches := batches - {Committing(t)};
      StillHeld(before);
      return Threw(BadAlloc);
    }

    /** `pinned_bytes`: exact while the backend's regions lie apart, and zero exactly when nobody
        holds any block. */
    method PinnedBytes() returns (bytes: nat)
      requires Valid() && alive
      ensures bytes == Wrap(TotalPinned(state.model.all))
      ensures RegionsApart(state.model.all) ==>
        && bytes == TotalPinned(state.model.all)
        && (bytes == 0 <==> forall p :: p in state.model.all ==> Holders(AllBatches(state.model, batches), p) == {})
    {
      hide TotalPinned, Wrap, RegionsApart, HeldIn, State.Valid, Holders;
      PinnedBytesByHolders(state.model, batches);
      bytes := state.PinnedBytes();
    }

    // -------------------------------------------------------------------------- giving up owners

    method DropPool(t: ThreadId, teardown: Teardown) returns (reply: Reply)
      requires Valid() && Enabled(Now(), Event(t, OpDropPool(teardown)))
      modifies `committing, `leases, `handle, `alive, `batches, state
      ensures Valid() && (Now(), reply) == Step(old(Now()), Event(t, OpDropPool(teardown)))
      ensures fresh(state.allBlocks.Values - old(state.allBlocks.Values))
    {
      hide WorldInv, ListedIn, HeldIn, M.Destroy;
      StepKeeps(Now(), Event(t, OpDropPool(teardown)));
      CurrentIsApart();
      handle := false;
      CloseIfLast(teardown);
      return Done;
    }

    method DropLease(t: ThreadId, id: nat, teardown: Teardown) returns (reply: Reply)
      requires Valid() && Enabled(Now(), Event(t, OpDropLease(id, teardown)))
      modifies `committing, `leases, `handle, `alive, `batches, state, state.allBlocks.Values
      ensures Valid() && (Now(), reply) == Step(old(Now()), Event(t, OpDropLease(id, teardown)))
      ensures fresh(state.allBlocks.Values - old(state.allBlocks.Values))
    {
      hide WorldInv, HeldIn, M.Destroy, M.Release;
      StepKeeps(Now(), Event(t, OpDropLease(id, teardown)));
      CurrentIsApart();
      ReleaseLease(id);
      CloseIfLast(teardown);
      return Done;
    }

    /** The pin state's destructor. */
    method ReleaseLease(id: nat)
      requires alive && state.Valid() && Held() && Lease(id) in batches
      modifies `leases, `batches, state`model, state.allBlocks.Values
      ensures alive && state.Valid() && Held() && handle == old(handle)
      ensures batches == old(batches) - {Lease(id)}
        && state.model == M.Release(old(state.model), old(batches)[Lease(id)])
    {
      hide HeldIn, ListedIn, M.Release, State.Valid;
      LeaseHolds(state.allBlocks, state, committing, leases, batches, id);
      leases[id].Destroy();
      leases := leases - {id};
      batches := batches - {Lease(id)};
    }

    /** The last shared owner runs `~State`. */
    method CloseIfLast(teardown: Teardown)
      requires alive && state.Valid() && Held() && Current !in batches
      requires WorldInv(Close(Now(), teardown))
      modifies `alive, state`model
      ensures Valid() && Now() == Close(old(Now()), teardown)
    {
      hide WorldInv, ListedIn, HeldIn, M.Destroy;
      NobodyHolds();
      if !handle && committing == map[] && leases == map[] {
        state.Destruct(teardown.drained, teardown.failing);
        alive := false;
      }
    }

    lemma NobodyHolds()
      requires Held() && Current !in batches
      ensures batches == map[] <==> committing == map[] && leases == map[]
    {
      if batches != map[] {
        var h :| h in batches;
        match h {
          case Committing(t) => assert t in committing;
          case Lease(id) => assert id in leases;
        }
      }
      if committing != map[] {
        var t :| t in committing;
        assert Committing(t) in batches;
      }
      if leases != map[] {
        var id :| id in leases;
        assert Lease(id) in batches;
      }
    }

    // -------------------------------------------------------------------------- whole runs

    /** The run so far, as `PoolRuns` sees it. */
    ghost predicate Recorded()
      reads this, state
    {
      PoolRuns.Run(worlds, log) && worlds[|log|] == Now()
    }

    /** Any critical section of any thread; `fault` says where an aborted commit failed. */
    method Do(e: Event, fault: CommitFault) returns (reply: Reply)
      requires Valid() && Recorded() && Enabled(Now(), e)
      modifies this, state, state.allBlocks.Values
      ensures Valid() && Recorded() && fresh(state.allBlocks.Values - old(state.allBlocks.Values))
      ensures worlds == old(worlds) + [Now()] && log == old(log) + [Record(e, reply)]
    {
      hide WorldInv, HeldIn, State.Valid, Step, Enabled, Run;
      ListedNow();
      reply := Dispatch(e, fault);
      Recording(worlds, log, Now(), Record(e, reply));
      worlds, log := worlds + [Now()], log + [Record(e, reply)];
    }

    lemma ListedNow()
      requires WorldInv(Now())
      ensures M.Listed(Now().pool)
    {}

    method Dispatch(e: Event, fault: CommitFault) returns (reply: Reply)
      requires Valid() && Enabled(Now(), e)
      modifies `committing, `leases, `handle, `alive, `batches, state, state.allBlocks.Values
      ensures Valid() && (Now(), reply) == Step(old(Now()), e) && worlds == old(worlds) && log == old(log)
      ensures fresh(state.allBlocks.Values - old(state.allBlocks.Values))
    {
      hide WorldInv, HeldIn, State.Valid;
      match e.op {
        case OpAllocate(size, exact, faults) => reply := Allocate(e.thread, size, exact, faults);
        case OpDeallocate(p, pushFails) => reply := Deallocate(e.thread, p, pushFails);
        case OpRetain(p) => reply := Retain(e.thread, p);
        case OpBegin => reply := Begin(e.thread);
        case OpDetach => reply := Detach(e.thread);
        case OpFinishCommit(id) => reply := FinishCommit(e.thread, id);
        case OpAbortCommit => reply := AbortCommit(e.thread, fault);
        case OpCancel => reply := Cancel(e.thread);
        case OpRetainForCapture(p, freeze) => reply := RetainForCapture(e.thread, p, freeze);
        case OpTrim(failing) => reply := Trim(e.thread, failing);
        case OpDropPool(teardown) => reply := DropPool(e.thread, teardown);
        case OpDropLease(id, teardown) => reply := DropLease(e.thread, id, teardown);
      }
    }
  }

  /** Every run there can be, of any threads, is a run of the code: driven by the events of `log`
      from a new pool it visits the worlds and gives the answers that the run says, whichever way
      its commits fail. */
  method Replay(events: seq<Event>, faults: seq<CommitFault>, ghost ws: seq<World>, ghost log: seq<Record>)
    returns (m: Machine, replies: seq<Reply>)
    requires PoolRuns.Run(ws, log) && |events| == |faults| == |log|
    requires forall i :: 0 <= i < |events| ==> log[i].event == events[i]
    ensures fresh(m) && m.Valid() && m.Recorded() && m.worlds == ws && m.log == log
    ensures |replies| == |log| && forall i :: 0 <= i < |log| ==> replies[i] == log[i].reply
  {
    hide Step, Enabled, WorldInv, Machine.Valid;
    m := new Machine();
    replies := [];
    for i := 0 to |events|
      invariant fresh(m) && fresh(m.state) && fresh(m.state.allBlocks.Values)
      invariant m.Valid() && m.Recorded() && m.worlds == ws[..i + 1] && m.log == log[..i]
      invariant |replies| == i && forall j :: 0 <= j < i ==> replies[j] == log[j].reply
    {
      assert Moves(ws[i], log[i], ws[i + 1]);
      var reply := m.Do(events[i], faults[i]);
      assert Moves(m.worlds[i], m.log[i], m.worlds[i + 1]);
      replies := replies + [reply];
    }
    assert ws[..|log| + 1] == ws && log[..|log|] == log;
  }

  lemma Recording(ws: seq<World>, log: seq<Record>, w: World, r: Record)
    requires PoolRuns.Run(ws, log) && Moves(ws[|log|], r, w)
    ensures PoolRuns.Run(ws + [w], log + [r]) && |ws| == |log| + 1
  {
    hide Moves;
    forall i | 0 <= i < |log| + 1 ensures Moves((ws + [w])[i], (log + [r])[i], (ws + [w])[i + 1]) {
      if i < |log| {
        assert Moves(ws[i], log[i], ws[i + 1]);
      }
    }
  }
}
