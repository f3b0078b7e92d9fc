/** Capture generations over a whole run: `retain_for_capture` tells, by comparing two
    counters, whether an address was handed out inside the open transaction. */
module PoolCapture {
  import opened Wrappers
  import opened PoolModel
  import opened PoolInvariant
  import opened PoolSteps
  import opened PoolRuns
  import opened PoolHistory

  predicate Opens(r: Record) {
    r.event.op.OpBegin? && r.reply == Done
  }

  predicate Closes(r: Record) {
    (r.event.op.OpDetach? && r.reply == Batch(true)) || (r.event.op.OpCancel? && r.reply == Done)
  }

  /** Position in the log where the transaction open at its end was begun. */
  function OpenTransaction(log: seq<Record>): Option<nat> {
    if log == [] then None
    else
      var last := log[|log| - 1];
      if Opens(last) then Some(|log| - 1)
      else if Closes(last) then None
      else OpenTransaction(log[..|log| - 1])
  }

  /** Position in the log of the last allocation that handed out `p`. */
  function LastGrant(log: seq<Record>, p: Ptr): Option<nat> {
    if log == [] then None
    else if Grants(log[|log| - 1], p) then Some(|log| - 1)
    else LastGrant(log[..|log| - 1], p)
  }

  function Begins(log: seq<Record>): nat {
    if log == [] then 0 else Begins(log[..|log| - 1]) + (if Opens(log[|log| - 1]) then 1 else 0)
  }

  /** What the log says a block's generation stamp must be. */
  function Stamp(log: seq<Record>, p: Ptr): nat {
    if log == [] then 0
    else
      var before := log[..|log| - 1];
      var last := log[|log| - 1];
      if !Grants(last, p) then Stamp(before, p)
      else
        match OpenTransaction(before)
        case Some(k) => if k < |before| && before[k].event.thread == last.event.thread then Begins(before) else 0
        case None => 0
  }

  // ---------------------------------------------------------------- facts about logs

  lemma {:induction false} OpenTransactionSpans(log: seq<Record>)
    ensures OpenTransaction(log).Some? ==>
      var k := OpenTransaction(log).value;
      && k < |log| && Opens(log[k])
      && Begins(log) == Begins(log[..k]) + 1
      && forall i :: k < i <= |log| ==> OpenTransaction(log[..i]) == Some(k) && Begins(log[..i]) == Begins(log)
    decreases |log|
  {
    if log == [] || OpenTransaction(log).None? {
    } else {
      var before := log[..|log| - 1];
      var k := OpenTransaction(log).value;
      if !Opens(log[|log| - 1]) {
        OpenTransactionSpans(before);
        assert before[..k] == log[..k];
      }
      forall i | k < i <= |log| ensures OpenTransaction(log[..i]) == Some(k) && Begins(log[..i]) == Begins(log) {
        if i == |log| {
          assert log[..i] == log;
        } else {
          assert before[..i] == log[..i];
        }
      }
    }
  }

  lemma {:induction false} BeginsMonotone(log: seq<Record>, i: nat, j: nat)
    requires i <= j <= |log|
    ensures Begins(log[..i]) <= Begins(log[..j])
    decreases j - i
  {
    if i == j {
    } else {
      assert log[..j][..j - 1] == log[..j - 1];
      BeginsMonotone(log, i, j - 1);
    }
  }

  lemma {:induction false} StampAtLastGrant(log: seq<Record>, p: Ptr)
    ensures match LastGrant(log, p)
      case None => Stamp(log, p) == 0
      case Some(i) =>
        && i < |log| && Grants(log[i], p)
        && match OpenTransaction(log[..i])
           case None => Stamp(log, p) == 0
           case Some(k) =>
             k < i && Stamp(log, p) == if log[k].event.thread == log[i].event.thread then Begins(log[..i]) else 0
    decreases |log|
  {
    if log == [] {
    } else {
      var before := log[..|log| - 1];
      if Grants(log[|log| - 1], p) {
        OpenTransactionSpans(before);
      } else {
        StampAtLastGrant(before, p);
        if LastGrant(log, p).Some? {
          var i := LastGrant(log, p).value;
          assert before[..i] == log[..i];
          OpenTransactionSpans(log[..i]);
        }
      }
    }
  }

  // ---------------------------------------------------------------- the pool keeps step with the log

  ghost predicate Tracks(s: Pool, log: seq<Record>) {
    && s.generation == Begins(log)
    && match OpenTransaction(log)
       case None => !s.pinned
       case Some(k) => k < |log| && OwnsCapture(s, log[k].event.thread)
  }

  lemma StepTracks(w: World, e: Event)
    requires WorldInv(w) && Enabled(w, e)
    ensures var (w', r) := Step(w, e);
      var rec := Record(e, r);
      w'.alive ==>
        && w'.pool.generation == w.pool.generation + (if Opens(rec) then 1 else 0)
        && (Opens(rec) ==> OwnsCapture(w'.pool, e.thread))
        && (Closes(rec) ==> !w'.pool.pinned)
        && (!Opens(rec) && !Closes(rec) ==> w'.pool.pinned == w.pool.pinned && w'.pool.owner == w.pool.owner)
  {
    hide Inv, AllocateFromClass, AllocateLarge, TrimClasses, TrimLarge, Unpin, Serves, NoneServes, Destroy, Listed;
    var t := e.thread;
    var s := w.pool;
    var others := w.batches;
    match e.op
    case OpAllocate(size, exact, faults) => AllocateKeeps(s, others, t, size, exact, faults);
    case OpDeallocate(q, pushFails) => DeallocateKeeps(s, others, q, pushFails);
    case OpRetain(q) => RetainKeeps(s, others, q);
    case OpBegin => BeginKeeps(s, others, t);
    case OpDetach => DetachKeeps(s, others, t);
    case OpFinishCommit(id) =>
    case OpAbortCommit => ReleaseKeeps(s, others, Committing(t));
    case OpCancel => CancelKeeps(s, others, t);
    case OpRetainForCapture(q, freeze) => RetainForCaptureKeeps(s, others, q, t, freeze);
    case OpTrim(failing) => TrimKeeps(s, others, failing);
    case OpDropPool(teardown) =>
    case OpDropLease(id, teardown) => ReleaseKeeps(s, others, Lease(id));
  }

  lemma {:induction false} RunTracks(ws: seq<World>, log: seq<Record>)
    requires Run(ws, log) && ws[|log|].alive
    ensures Tracks(ws[|log|].pool, log)
    decreases |log|
  {
    hide WorldInv, Step, Enabled;
    RunIsSafe(ws, log);
    if log == [] {
    } else {
      var n := |log| - 1;
      PrefixRun(ws, log, n);
      RunTracks(ws[..n + 1], log[..n]);
      assert Moves(ws[n], log[n], ws[n + 1]);
      StepTracks(ws[n], log[n].event);
      assert log[n] == Record(log[n].event, log[n].reply);
    }
  }

  lemma BlockIsNotNull(w: World, p: Ptr)
    requires WorldInv(w) && p in w.pool.all
    ensures p != NULL
  {
    assert BlockOk(p, w.pool.all[p], w.pool.generation);
  }

  /** Every block carries the stamp its last allocation earned. */
  lemma {:induction false} StampsAreExact(ws: seq<World>, log: seq<Record>, p: Ptr)
    requires Run(ws, log) && ws[|log|].alive && p in ws[|log|].pool.all
    ensures ws[|log|].pool.all[p].generation == Stamp(log, p)
    ensures LastGrant(log, p).Some?
    decreases |log|
  {
    hide WorldInv, Step, Enabled;
    RunIsSafe(ws, log);
    BlockIsNotNull(ws[|log|], p);
    assert log != [];
    var n := |log| - 1;
    var before := log[..n];
    PrefixRun(ws, log, n);
    assert Moves(ws[n], log[n], ws[n + 1]);
    StepPointwise(ws[n], log[n].event, p);
    assert log[n] == Record(log[n].event, log[n].reply);
    if Grants(log[n], p) {
      RunTracks(ws[..n + 1], before);
    } else {
      StampsAreExact(ws[..n + 1], before, p);
    }
  }

  /** The answer of `retain_for_capture`: it is false exactly when the last allocation that
      handed out the block was made by the capturing thread inside the transaction that is
      open now, however many transactions came before. */
  lemma RetainAnswersByTransaction(ws: seq<World>, log: seq<Record>, n: nat)
    requires Run(ws, log) && n < |log| && log[n].event.op.OpRetainForCapture? && log[n].reply.Predates?
    ensures var start := OpenTransaction(log[..n]);
      var grant := LastGrant(log[..n], log[n].event.op.ptr);
      && start.Some? && start.value < n && log[start.value].event.thread == log[n].event.thread
      && grant.Some? && grant.value < n
      && (!log[n].reply.answer <==>
            start.value < grant.value && log[grant.value].event.thread == log[n].event.thread)
  {
    var p := log[n].event.op.ptr;
    var t := log[n].event.thread;
    var before := log[..n];
    RunIsSafe(ws, log);
    assert Moves(ws[n], log[n], ws[n + 1]);
    PrefixRun(ws, log, n);
    assert WorldInv(ws[n]);
    RetainForCaptureKeeps(ws[n].pool, ws[n].batches, p, t, log[n].event.op.freeze);
    RunTracks(ws[..n + 1], before);
    StampsAreExact(ws[..n + 1], before, p);
    StampAtLastGrant(before, p);
    OpenTransactionSpans(before);
    var k := OpenTransaction(before).value;
    var i := LastGrant(before, p).value;
    if k < i {
      assert OpenTransaction(before[..i]) == Some(k);
    } else {
      BeginsMonotone(before, i, k);
    }
  }

  lemma BeginRaisesGeneration(w: World, e: Event)
    requires WorldInv(w) && Enabled(w, e) && Opens(Record(e, Step(w, e).1))
    ensures w.pool.generation < Step(w, e).0.pool.generation <= GENERATION_MAX
  {
    BeginKeeps(w.pool, w.batches, e.thread);
  }

  /** Generations never repeat: a later transaction has a larger, non-zero one. */
  lemma GenerationsGrow(ws: seq<World>, log: seq<Record>, i: nat, j: nat)
    requires Run(ws, log) && i < j < |log| && Opens(log[i]) && Opens(log[j])
    ensures 0 < ws[i + 1].pool.generation < ws[j + 1].pool.generation <= GENERATION_MAX
  {
    hide WorldInv, Step;
    RunIsSafe(ws, log);
    PrefixRun(ws, log, i + 1);
    PrefixRun(ws, log, j);
    RunTracks(ws[..i + 2], log[..i + 1]);
    RunTracks(ws[..j + 1], log[..j]);
    BeginsMonotone(log, i + 1, j);
    assert log[..i + 1][..i] == log[..i];
    assert Moves(ws[j], log[j], ws[j + 1]);
    assert log[j] == Record(log[j].event, log[j].reply);
    BeginRaisesGeneration(ws[j], log[j].event);
  }

  // ---------------------------------------------------------------- addresses of the open transaction

  lemma FreezeForgetsNothing(s: Pool, q: Ptr, t: ThreadId, faults: FreezeFaults, p: Ptr)
    requires q in s.all && p in s.frozen
    ensures p in Freeze(s, q, t, faults).0.frozen && q in Freeze(s, q, t, faults).0.all
  {
    assert (s.frozen + [q])[..|s.frozen|] == s.frozen;
  }

  lemma AllocateForgetsNothing(s: Pool, t: ThreadId, size: nat, exact: bool, faults: AllocFaults, p: Ptr)
    requires Listed(s) && p in s.frozen
    ensures p in Allocate(s, t, size, exact, faults).0.frozen
  {
    hide Freeze, Remove, AlignUp, FirstClass;
    forall s': Pool, q, f | p in s'.frozen && q in s'.all
      ensures p in Freeze(s', q, t, f).0.frozen && q in Freeze(s', q, t, f).0.all
    {
      FreezeForgetsNothing(s', q, t, f, p);
    }
  }

  /** The pool dies with its last owner: its user's object, a commit under way or a lease. */
  ghost predicate EndsPool(w: World, e: Event) {
    || (e.op.OpDropPool? && w.batches == map[])
    || (e.op.OpDropLease? && !w.handle && w.batches.Keys == {Lease(e.op.id)})
  }

  lemma EndsExactly(w: World, e: Event)
    requires WorldInv(w) && Enabled(w, e)
    ensures Step(w, e).0.alive <==> !EndsPool(w, e)
  {
    if e.op.OpDropLease? {
      var rest := w.batches - {Lease(e.op.id)};
      assert rest.Keys == w.batches.Keys - {Lease(e.op.id)};
      assert rest == map[] <==> rest.Keys == {};
    }
  }

  /** A block frozen by the open transaction stays frozen until that transaction is committed or
      cancelled, or the pool's last owner goes. */
  lemma StepKeepsFrozen(w: World, e: Event, p: Ptr)
    requires WorldInv(w) && Enabled(w, e) && p in w.pool.frozen
    requires !Closes(Record(e, Step(w, e).1))
    ensures !EndsPool(w, e) ==> p in Step(w, e).0.pool.frozen
  {
    hide Inv, AllocateFromClass, AllocateLarge, TrimClasses, TrimLarge, Unpin, Freeze, Allocate, EndsPool;
    var s := w.pool;
    EndsExactly(w, e);
    match e.op
    case OpAllocate(size, exact, faults) => AllocateForgetsNothing(s, e.thread, size, exact, faults, p);
    case OpRetainForCapture(q, freeze) =>
      if q in s.all {
        FreezeForgetsNothing(s, q, e.thread, freeze, p);
      }
    case OpTrim(failing) => TrimKeeps(s, w.batches, failing);
    case _ =>
  }

  /** While its transaction is open, no block it froze moves, changes size or goes back to the
      backend, whatever any thread does, unless the pool's last owner goes. */
  lemma {:induction false} TransactionKeepsAddresses(ws: seq<World>, log: seq<Record>, i: nat, j: nat, p: Ptr)
    requires Run(ws, log) && i <= j < |ws| && p in ws[i].pool.frozen
    requires forall k :: i <= k < j ==> !Closes(log[k]) && !EndsPool(ws[k], log[k].event)
    ensures ws[j].alive && p in ws[j].pool.frozen
    ensures p in ws[i].pool.all && p in ws[j].pool.all && ws[j].pool.all[p].pinCount > 0
    ensures p in ws[j].pool.backend.live && SameAddress(ws[i].pool.all[p], ws[j].pool.all[p])
    decreases j - i
  {
    hide Step, Enabled, EndsPool, Inv, Listed;
    RunIsSafe(ws, log);
    assert WorldInv(ws[i]) && WorldInv(ws[j]);
    if i == j {
      FrozenIsPinned(ws[i], p);
    } else {
      TransactionKeepsAddresses(ws, log, i, j - 1, p);
      assert Moves(ws[j - 1], log[j - 1], ws[j]);
      assert log[j - 1] == Record(log[j - 1].event, log[j - 1].reply);
      EndsExactly(ws[j - 1], log[j - 1].event);
      StepKeepsFrozen(ws[j - 1], log[j - 1].event, p);
      StepKeepsPinned(ws[j - 1], log[j - 1].event, p);
      FrozenIsPinned(ws[j], p);
    }
  }

  lemma FrozenIsPinned(w: World, p: Ptr)
    requires WorldInv(w) && p in w.pool.frozen
    ensures w.alive && p in w.pool.all && w.pool.all[p].pinCount > 0 && p in w.pool.backend.live
  {
    HeldIsPinned(w.pool.all, AllBatches(w.pool, w.batches), Current, p);
  }

  /** The open transaction does not own the pool: with no lease and no commit under way, the end
      of the pool object is the end of the blocks the transaction has pinned. */
  lemma EndOfPoolFreesFrozen(w: World, e: Event, p: Ptr)
    requires WorldInv(w) && Enabled(w, e) && p in w.pool.frozen && EndsPool(w, e)
    ensures p in Step(w, e).0.pool.backend.live <==> !e.op.teardown.drained || p in e.op.teardown.failing
  {
    hide Inv;
    FrozenIsPinned(w, p);
    EndsExactly(w, e);
    StepLedger(w, e);
  }

  /** Begin, allocate, destroy the pool object: the block is freed while it is pinned. */
  lemma FreedWhilePinned() returns (ws: seq<World>, log: seq<Record>, p: Ptr)
    ensures Run(ws, log) && |log| == 3
    ensures Opens(log[0]) && Grants(log[1], p) && log[2].event.op.OpDropPool?
    ensures p in ws[2].pool.frozen && p in ws[2].pool.all && ws[2].pool.all[p].pinCount == 1
    ensures p in ws[2].pool.backend.live && p !in ws[3].pool.backend.live
  {
    hide Inv, Destroy, AllocateLarge, Remove;
    p := 256;
    var fits := AllocFaults(false, Some(p), false, false, FreezeFaults(false, false), false);
    var begin, allocate := Event(0, OpBegin), Event(0, OpAllocate(1, false, fits));
    var drop := Event(0, OpDropPool(Teardown(true, {})));
    StartOk();
    var (w1, r1) := Step(START, begin);
    StepKeeps(START, begin);
    var (w2, r2) := Step(w1, allocate);
    StepKeeps(w1, allocate);
    var (w3, r3) := Step(w2, drop);
    EndOfPoolFreesFrozen(w2, drop, p);
    ws, log := [START, w1, w2, w3], [Record(begin, r1), Record(allocate, r2), Record(drop, r3)];
    assert Moves(START, log[0], w1) && Moves(w1, log[1], w2) && Moves(w2, log[2], w3);
  }
}
