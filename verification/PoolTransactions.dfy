/** Capture transactions over a whole run, told from the log of calls alone: who may begin, commit
    and cancel, which blocks a transaction freezes, and what its lease holds in the end. */
module PoolTransactions {
  import opened Wrappers
  import opened PoolModel
  import opened PoolInvariant
  import opened PoolSteps
  import opened PoolRuns
  import opened PoolHistory
  import opened PoolCapture

  // ---------------------------------------------------------------- answers

  /** What the calls about transactions answer, given the transaction open before, if any. */
  ghost predicate AnswersTo(r: Record, log: seq<Record>, s: Pool) {
    var start := OpenTransaction(log);
    var own := start.Some? && start.value < |log| && log[start.value].event.thread == r.event.thread;
    match r.event.op
    case OpBegin =>
      r.reply == (if start.Some? then Threw(AlreadyActive)
                  else if Begins(log) == GENERATION_MAX then Threw(GenerationExhausted) else Done)
    case OpDetach => r.reply == (if start.None? then Batch(false) else if own then Batch(true) else Threw(WrongThread))
    case OpCancel => r.reply == (if start.None? || own then Done else Threw(WrongThread))
    case OpRetainForCapture(p, freeze) =>
      if !own then r.reply == Threw(NotActive)
      else if p !in s.all then r.reply == Threw(NotOwned)
      else if p !in s.frozen && (freeze.pushFails || freeze.insertFails) then r.reply == Threw(BadAlloc)
      else r.reply.Predates?
    case _ => true
  }

  lemma StepAnswers(w: World, e: Event, log: seq<Record>)
    requires WorldInv(w) && Enabled(w, e) && Tracks(w.pool, log)
    ensures AnswersTo(Record(e, Step(w, e).1), log, w.pool)
  {
    hide Inv, Freeze, Listed;
    match e.op
    case OpBegin => BeginKeeps(w.pool, w.batches, e.thread);
    case OpDetach => DetachKeeps(w.pool, w.batches, e.thread);
    case OpCancel => CancelKeeps(w.pool, w.batches, e.thread);
    case OpRetainForCapture(p, freeze) => RetainForCaptureKeeps(w.pool, w.batches, p, e.thread, freeze);
    case _ =>
  }

  /** A transaction opens exactly when none is open and a generation is left; it is committed and
      cancelled by its own thread alone, and that thread alone captures. */
  lemma TransactionAnswers(ws: seq<World>, log: seq<Record>, n: nat)
    requires Run(ws, log) && n < |log|
    ensures AnswersTo(log[n], log[..n], ws[n].pool)
  {
    hide WorldInv, Step, AnswersTo, Tracks;
    RunIsSafe(ws, log);
    assert Moves(ws[n], log[n], ws[n + 1]);
    PrefixRun(ws, log, n);
    RunTracks(ws[..n + 1], log[..n]);
    StepAnswers(ws[n], log[n].event, log[..n]);
    assert log[n] == Record(log[n].event, log[n].reply);
  }

  lemma {:induction false} ClosedInBetween(log: seq<Record>, i: nat, j: nat)
    requires i < j <= |log| && Opens(log[i]) && OpenTransaction(log[..j]).None?
    ensures exists k :: i < k < j && Closes(log[k])
    decreases j
  {
    assert log[..j][..j - 1] == log[..j - 1];
    if i < j - 1 && !Closes(log[j - 1]) {
      ClosedInBetween(log, i, j - 1);
    }
  }

  /** Transactions do not overlap: between two that were opened the first was closed. */
  lemma TransactionsDoNotOverlap(ws: seq<World>, log: seq<Record>, i: nat, j: nat)
    requires Run(ws, log) && i < j < |log| && Opens(log[i]) && Opens(log[j])
    ensures exists k :: i < k < j && Closes(log[k])
  {
    TransactionAnswers(ws, log, j);
    ClosedInBetween(log, i, j);
  }

  // ---------------------------------------------------------------- what a transaction freezes

  /** The call got hold of this block. */
  predicate Takes(r: Record, p: Ptr) {
    Grants(r, p) || (r.event.op.OpRetainForCapture? && r.event.op.ptr == p && r.reply.Predates?)
  }

  /** The effect of any step on the frozen list, as a set. */
  lemma StepFreezes(w: World, e: Event, p: Ptr)
    requires WorldInv(w) && Enabled(w, e) && Step(w, e).0.alive && p != NULL
    ensures var (w', r) := Step(w, e);
      p in w'.pool.frozen <==>
        && !Closes(Record(e, r))
        && (p in w.pool.frozen || (w.pool.pinned && w.pool.owner == Some(e.thread) && Takes(Record(e, r), p)))
  {
    hide Inv, AllocateFromClass, AllocateLarge, TrimClasses, TrimLarge, Unpin, Freeze, Allocate, Listed, Serves;
    var s := w.pool;
    var t := e.thread;
    NoListWithoutTransaction(w);
    match e.op
    case OpAllocate(size, exact, faults) => AllocateFreezes(s, w.batches, t, size, exact, faults, p);
    case OpBegin => BeginKeeps(s, w.batches, t);
    case OpDetach => DetachKeeps(s, w.batches, t);
    case OpCancel => CancelKeeps(s, w.batches, t);
    case OpRetainForCapture(q, freeze) => RetainForCaptureKeeps(s, w.batches, q, t, freeze);
    case OpTrim(failing) => TrimKeeps(s, w.batches, failing);
    case _ =>
  }

  lemma NoListWithoutTransaction(w: World)
    requires WorldInv(w) && w.alive
    ensures !w.pool.pinned ==> w.pool.frozen == []
  {}

  lemma AllocateFreezes(s: Pool, others: Batches, t: ThreadId, size: nat, exact: bool, faults: AllocFaults, p: Ptr)
    requires Inv(s, others) && Listed(s) && FaultsOk(s, faults) && p != NULL
    ensures var (s', r) := Allocate(s, t, size, exact, faults);
      p in s'.frozen <==> p in s.frozen || (s.pinned && s.owner == Some(t) && r == Ok(p))
  {
    hide Inv, Allocate, Serves, NoneServes, Listed;
    AllocateKeeps(s, others, t, size, exact, faults);
  }

  /** Taken by its own thread between the opening of a transaction and moment `n`. */
  ghost predicate TakenSince(log: seq<Record>, k: nat, n: nat, p: Ptr)
    requires k <= n <= |log|
  {
    exists i :: k < i < n && log[i].event.thread == log[k].event.thread && Takes(log[i], p)
  }

  lemma TakenSoFar(log: seq<Record>, k: nat, n: nat, p: Ptr)
    requires k < n < |log|
    ensures TakenSince(log, k, n + 1, p)
            <==> TakenSince(log, k, n, p) || (log[n].event.thread == log[k].event.thread && Takes(log[n], p))
  {
    if TakenSince(log, k, n + 1, p) {
      var i :| k < i < n + 1 && log[i].event.thread == log[k].event.thread && Takes(log[i], p);
      assert i < n || i == n;
    }
    if TakenSince(log, k, n, p) {
      var i :| k < i < n && log[i].event.thread == log[k].event.thread && Takes(log[i], p);
      assert k < i < n + 1;
    }
  }

  /** The frozen list at any moment, from the log alone: exactly the blocks that the thread which
      opened the transaction was handed or captured since.  No other thread adds to it. */
  lemma {:induction false} FrozenIsExact(ws: seq<World>, log: seq<Record>, n: nat, p: Ptr)
    requires Run(ws, log) && n <= |log| && ws[n].alive && p != NULL
    ensures match OpenTransaction(log[..n])
      case None => p !in ws[n].pool.frozen
      case Some(k) => k < n && (p in ws[n].pool.frozen <==> TakenSince(log, k, n, p))
  {
    hide WorldInv, Step, Enabled;
    RunIsSafe(ws, log);
    if n == 0 {
    } else {
      var m := n - 1;
      assert Moves(ws[m], log[m], ws[n]);
      assert log[m] == Record(log[m].event, log[m].reply);
      PrefixRun(ws, log, m);
      FrozenIsExact(ws, log, m, p);
      RunTracks(ws[..m + 1], log[..m]);
      StepFreezes(ws[m], log[m].event, p);
      TransactionAnswers(ws, log, m);
      assert log[..n][..m] == log[..m];
      var start := OpenTransaction(log[..m]);
      if start.Some? {
        TakenSoFar(log, start.value, m, p);
      }
    }
  }

  /** A block enters the frozen list only through a call of the thread that opened the transaction,
      and only the block of that call. */
  lemma OnlyOpenerFreezes(ws: seq<World>, log: seq<Record>, n: nat, p: Ptr)
    requires Run(ws, log) && n < |log| && ws[n + 1].alive && p != NULL
    requires p !in ws[n].pool.frozen && p in ws[n + 1].pool.frozen
    ensures var start := OpenTransaction(log[..n]);
      start.Some? && start.value < n && log[start.value].event.thread == log[n].event.thread && Takes(log[n], p)
  {
    hide WorldInv, Step, Enabled;
    RunIsSafe(ws, log);
    assert Moves(ws[n], log[n], ws[n + 1]);
    assert log[n] == Record(log[n].event, log[n].reply);
    PrefixRun(ws, log, n);
    RunTracks(ws[..n + 1], log[..n]);
    StepFreezes(ws[n], log[n].event, p);
    OpenTransactionSpans(log[..n]);
  }

  // ---------------------------------------------------------------- what a lease holds

  function BatchOf(w: World, h: Holder): Option<seq<Ptr>> {
    if h in w.batches then Some(w.batches[h]) else None
  }

  /** The batch of holder `h` after a step. */
  function NextBatch(w: World, r: Record, h: Holder): Option<seq<Ptr>> {
    var own := Committing(r.event.thread);
    match r.event.op
    case OpDetach => if h == own && r.reply == Batch(true) then Some(w.pool.frozen) else BatchOf(w, h)
    case OpFinishCommit(id) => if h == Lease(id) then BatchOf(w, own) else if h == own then None else BatchOf(w, h)
    case OpAbortCommit => if h == own then None else BatchOf(w, h)
    case OpDropLease(id, _) => if h == Lease(id) then None else BatchOf(w, h)
    case _ => BatchOf(w, h)
  }

  lemma StepBatch(w: World, e: Event, h: Holder)
    requires WorldInv(w) && Enabled(w, e)
    ensures var (w', r) := Step(w, e); BatchOf(w', h) == NextBatch(w, Record(e, r), h)
  {
    hide Inv, Listed;
    if e.op.OpDetach? {
      DetachKeeps(w.pool, w.batches, e.thread);
    }
    if e.op.OpDropLease? && h in w.batches && h != Lease(e.op.id) {
      assert h in w.batches - {Lease(e.op.id)};
    }
  }

  /** A transaction in the log: where it was opened and where it was committed. */
  datatype Span = Span(start: nat, end: nat)

  /** The transaction whose blocks holder `h` has at the end of the log, if it has any. */
  function HeldSpan(log: seq<Record>, h: Holder): Option<Span>
    decreases |log|
  {
    if log == [] then None
    else
      var before := log[..|log| - 1];
      var r := log[|log| - 1];
      var own := Committing(r.event.thread);
      match r.event.op
      case OpDetach =>
        if h == own && r.reply == Batch(true) && OpenTransaction(before).Some?
        then Some(Span(OpenTransaction(before).value, |before|)) else HeldSpan(before, h)
      case OpFinishCommit(id) =>
        if h == Lease(id) then HeldSpan(before, own) else if h == own then None else HeldSpan(before, h)
      case OpAbortCommit => if h == own then None else HeldSpan(before, h)
      case OpDropLease(id, _) => if h == Lease(id) then None else HeldSpan(before, h)
      case _ => HeldSpan(before, h)
  }

  /** What the log says holder `h` has at moment `n`. */
  ghost predicate HoldsTaken(log: seq<Record>, n: nat, h: Holder, batch: Option<seq<Ptr>>, p: Ptr)
    requires n <= |log|
  {
    match HeldSpan(log[..n], h)
    case None => batch == None
    case Some(span) =>
      && span.start < span.end < n && Opens(log[span.start]) && Closes(log[span.end])
      && batch.Some? && (p in batch.value <==> TakenSince(log, span.start, span.end, p))
  }

  ghost predicate TakenByOpen(log: seq<Record>, m: nat, batch: seq<Ptr>, p: Ptr)
    requires m <= |log|
  {
    var start := OpenTransaction(log[..m]);
    start.Some? && start.value < m && Opens(log[start.value]) && (p in batch <==> TakenSince(log, start.value, m, p))
  }

  lemma DetachTakes(ws: seq<World>, log: seq<Record>, m: nat, p: Ptr)
    requires Run(ws, log) && m < |log| && p != NULL && log[m].event.op.OpDetach? && log[m].reply == Batch(true)
    ensures TakenByOpen(log, m, ws[m].pool.frozen, p)
  {
    hide WorldInv, Step, Enabled, TakenSince;
    assert Moves(ws[m], log[m], ws[m + 1]);
    PrefixRun(ws, log, m);
    FrozenIsExact(ws, log, m, p);
    TransactionAnswers(ws, log, m);
    OpenTransactionSpans(log[..m]);
  }

  lemma HoldsStep(log: seq<Record>, m: nat, w: World, h: Holder, p: Ptr)
    requires m < |log| && HoldsTaken(log, m, h, BatchOf(w, h), p)
    requires log[m].event.op.OpFinishCommit? ==>
      HoldsTaken(log, m, Committing(log[m].event.thread), BatchOf(w, Committing(log[m].event.thread)), p)
    requires log[m].event.op.OpDetach? && log[m].reply == Batch(true) ==> TakenByOpen(log, m, w.pool.frozen, p)
    ensures HoldsTaken(log, m + 1, h, NextBatch(w, log[m], h), p)
  {
    hide TakenSince, OpenTransaction;
    assert log[..m + 1][..m] == log[..m];
  }

  /** Commits under way and leases hold exactly the blocks that their transaction's thread was
      handed or captured between its opening and its commit, however long ago that was. */
  lemma {:induction false} BatchesAreExact(ws: seq<World>, log: seq<Record>, n: nat, h: Holder, p: Ptr)
    requires Run(ws, log) && n <= |log| && p != NULL && h != Current
    ensures HoldsTaken(log, n, h, BatchOf(ws[n], h), p)
    decreases n
  {
    hide WorldInv, Step, Enabled, HoldsTaken, TakenByOpen;
    RunIsSafe(ws, log);
    if n == 0 {
      NothingHeld(log, h, p);
    } else {
      var m := n - 1;
      assert Moves(ws[m], log[m], ws[n]);
      assert log[m] == Record(log[m].event, log[m].reply);
      BatchesAreExact(ws, log, m, h, p);
      if log[m].event.op.OpFinishCommit? {
        BatchesAreExact(ws, log, m, Committing(log[m].event.thread), p);
      }
      if log[m].event.op.OpDetach? && log[m].reply == Batch(true) {
        DetachTakes(ws, log, m, p);
      }
      StepBatch(ws[m], log[m].event, h);
      HoldsStep(log, m, ws[m], h, p);
    }
  }

  lemma NothingHeld(log: seq<Record>, h: Holder, p: Ptr)
    ensures HoldsTaken(log, 0, h, None, p)
  {}

  // ---------------------------------------------------------------- how long the pool lives

  predicate Dropped(log: seq<Record>) {
    exists k :: 0 <= k < |log| && log[k].event.op.OpDropPool?
  }

  lemma DroppedSoFar(log: seq<Record>)
    requires log != []
    ensures Dropped(log) <==> Dropped(log[..|log| - 1]) || log[|log| - 1].event.op.OpDropPool?
  {
    var before := log[..|log| - 1];
    if Dropped(log) {
      var k :| 0 <= k < |log| && log[k].event.op.OpDropPool?;
      assert k < |log| - 1 ==> before[k] == log[k];
    }
    if Dropped(before) {
      var k :| 0 <= k < |before| && before[k].event.op.OpDropPool?;
      assert log[k] == before[k];
    }
  }

  lemma StepHandle(w: World, e: Event)
    requires WorldInv(w) && Enabled(w, e)
    ensures Step(w, e).0.handle <==> w.handle && !e.op.OpDropPool?
  {}

  lemma {:induction false} HandleIsExact(ws: seq<World>, log: seq<Record>, n: nat)
    requires Run(ws, log) && n <= |log|
    ensures ws[n].handle <==> !Dropped(log[..n])
  {
    hide WorldInv, Step, Enabled, Dropped;
    RunIsSafe(ws, log);
    if n == 0 {
      assert !Dropped([]) by { NothingDropped(); }
    } else {
      assert Moves(ws[n - 1], log[n - 1], ws[n]);
      HandleIsExact(ws, log, n - 1);
      StepHandle(ws[n - 1], log[n - 1].event);
      DroppedSoFar(log[..n]);
      assert log[..n][..n - 1] == log[..n - 1];
    }
  }

  lemma NothingDropped()
    ensures !Dropped([])
  {}

  /** The pool lives exactly as long as its object, a commit under way or a lease, all of which the
      log tells. */
  lemma PoolLivesExactly(ws: seq<World>, log: seq<Record>, n: nat)
    requires Run(ws, log) && n <= |log|
    ensures ws[n].alive <==> !Dropped(log[..n]) || exists h :: h != Current && HeldSpan(log[..n], h).Some?
  {
    hide Dropped, Inv, Listed, HeldSpan;
    RunIsSafe(ws, log);
    assert WorldInv(ws[n]);
    HandleIsExact(ws, log, n);
    forall h | h != Current ensures h in ws[n].batches <==> HeldSpan(log[..n], h).Some? {
      BatchesAreExact(ws, log, n, h, 1);
    }
    if ws[n].batches != map[] {
      var h :| h in ws[n].batches;
      OthersOnly(ws[n], h);
      assert HeldSpan(log[..n], h).Some?;
    } else {
      assert forall h :: h != Current ==> HeldSpan(log[..n], h).None?;
    }
  }

  lemma OthersOnly(w: World, h: Holder)
    requires WorldInv(w) && h in w.batches
    ensures h != Current
  {}

  // ---------------------------------------------------------------- the other answers

  /** What the remaining calls answer. */
  lemma StepReplies(w: World, e: Event)
    requires WorldInv(w) && Enabled(w, e)
    ensures var r := Step(w, e).1;
      match e.op
      case OpAllocate(size, exact, faults) =>
        (match Allocate(w.pool, e.thread, size, exact, faults).1
         case Ok(p) => r == Address(p)
         case Throw(error) => r == Threw(error))
      case OpRetain(p) => r == if p in w.pool.all then Bytes(w.pool.all[p].size) else Threw(NotOwned)
      case OpTrim(failing) =>
        r == if exists p :: p in w.pool.all && !w.pool.all[p].inUse && w.pool.all[p].pinCount == 0 && p in failing
             then Threw(BackendError) else Done
      case OpAbortCommit => r == Threw(BadAlloc)
      case OpFinishCommit(_) => r == Done
      case OpDropPool(_) => r == Done
      case OpDropLease(_, _) => r == Done
      case _ => true
  {
    hide Inv, Allocate, TrimClasses, TrimLarge;
    match e.op
    case OpRetain(p) => RetainKeeps(w.pool, w.batches, p);
    case OpTrim(failing) =>
      TrimKeeps(w.pool, w.batches, failing);
      assert forall p :: p in Idle(w.pool) <==>
        p in w.pool.all && !w.pool.all[p].inUse && w.pool.all[p].pinCount == 0;
    case _ =>
  }
}
