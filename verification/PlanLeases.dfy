/**
 What a lease is worth: whoever holds a current claim is alone until its lease ends,
 row by row, through the retry loop, and for any number of interleaved workers.
 */
module PlanLeases {
  import opened Wrappers
  import opened PlanRows
  import opened PlanServices
  import opened PlanWorkers

  // ----- single transactions

  /** Somebody's claim is current. */
  ghost predicate Claimed(rows: Rows, now: int) {
    exists h :: Current(rows, h, now)
  }

  lemma ClaimedExactly(rows: Rows, now: int)
    ensures Claimed(rows, now) <==> rows.claim.Some? && rows.claim.value.owner.Some? && rows.claim.value.leaseExpiresAt > now
  {
    if rows.claim.Some? && rows.claim.value.owner.Some? && rows.claim.value.leaseExpiresAt > now {
      assert Current(rows, Handle(rows.claim.value.owner.value, rows.claim.value.generation), now);
    }
  }

  /** A claim can be acquired exactly while nobody's is current; a refusal changes nothing. */
  lemma AcquiredExactly(rows: Rows, owner: string, lease: int, now: int)
    ensures var (after, found) := AcquireTxn(rows, owner, lease, now);
            && (found.Some? <==> !Claimed(rows, now))
            && (found.None? ==> after == rows)
  {
    ClaimedExactly(rows, now);
  }

  /** A new claim is the caller's, is of the next generation, and is current exactly until its lease ends. */
  lemma AcquiredForItsLease(rows: Rows, owner: string, lease: int, now: int, later: int)
    requires !Claimed(rows, now)
    ensures var (after, found) := AcquireTxn(rows, owner, lease, now);
            && found == Some(Handle(owner, rows.ClaimGeneration() + 1))
            && (Current(after, found.value, later) <==> later < now + lease)
            && after.(claim := rows.claim) == rows
  {
    AcquiredExactly(rows, owner, lease, now);
  }

  /** Only a current holder renews, and its claim is then current exactly until the renewed lease ends. */
  lemma RenewedForItsLease(rows: Rows, h: Handle, lease: int, now: int, later: int)
    ensures var (after, renewed) := RenewTxn(rows, h, lease, now);
            && (renewed <==> Current(rows, h, now))
            && (renewed ==> (Current(after, h, later) <==> later < now + lease))
            && (!renewed ==> after == rows)
            && after.(claim := rows.claim) == rows
  {}

  /** A claim that was given back is nobody's, and anybody may acquire the next one at any time. */
  lemma ReleasedIsFree(rows: Rows, h: Handle, now: int, owner: string, lease: int, later: int)
    requires Owns(rows, h)
    ensures var (after, released) := ReleaseTxn(rows, h, now);
            && released
            && !Claimed(after, later)
            && AcquireTxn(after, owner, lease, later).1 == Some(Handle(owner, h.generation + 1))
            && after.(claim := rows.claim) == rows
  {
    var after := ReleaseTxn(rows, h, now).0;
    ClaimedExactly(after, later);
    AcquiredForItsLease(after, owner, lease, later, later);
  }

  // ----- any transactions by others

  function Clock(t: Txn): int {
    match t
    case Acquire(_, _, now) => now
    case Renew(_, _, now) => now
    case Release(_, now) => now
    case Prepare(_, now) => now
    case Mark(_, now) => now
    case Cancel(now) => now
    case Write(_, _, _, now) => now
  }

  /** Of this handle's own transactions only a renewal or a release can end its claim early. */
  predicate Leaves(t: Txn, h: Handle) {
    !(t.Renew? && t.h == h) && !(t.Release? && t.h == h)
  }

  /** While a claim is current nobody can take it, whoever asks. */
  lemma LeaseExcludes(rows: Rows, h: Handle, owner: string, lease: int, now: int)
    requires Current(rows, h, now)
    ensures AcquireTxn(rows, owner, lease, now) == (rows, None)
  {}

  lemma LeaseSurvives(rows: Rows, h: Handle, t: Txn, end: int)
    requires Current(rows, h, end) && Clock(t) <= end && Leaves(t, h)
    ensures Current(Perform(rows, t), h, end)
  {}

  /** No transactions of others, in any number and order, end a claim before its lease does. */
  lemma {:induction false} LeaseSurvivesAll(rows: Rows, h: Handle, ts: seq<Txn>, end: int)
    requires Current(rows, h, end)
    requires forall k :: 0 <= k < |ts| ==> Clock(ts[k]) <= end && Leaves(ts[k], h)
    ensures Current(PerformAll(rows, ts), h, end)
    decreases |ts|
  {
    if ts != [] {
      LeaseSurvives(rows, h, ts[0], end);
      LeaseSurvivesAll(Perform(rows, ts[0]), h, ts[1..], end);
    }
  }

  /** Until then everybody else is refused. */
  lemma {:induction false} NobodyAcquiresUntilTheLeaseEnds(rows: Rows, h: Handle, ts: seq<Txn>, end: int,
                                                          owner: string, lease: int, now: int)
    requires Current(rows, h, end) && now <= end
    requires forall k :: 0 <= k < |ts| ==> Clock(ts[k]) <= end && Leaves(ts[k], h)
    ensures AcquireTxn(PerformAll(rows, ts), owner, lease, now) == (PerformAll(rows, ts), None)
  {
    LeaseSurvivesAll(rows, h, ts, end);
  }

  // ----- what a holder can rely on between its own transactions

  /** As long as this claim is the latest, only its own handle moves the progress row. */
  predicate ProgressIs(rows: Rows, h: Handle, phase: Phase) {
    rows.ClaimGeneration() > h.generation
    || (&& rows.claim.Some? && rows.claim.value.generation == h.generation
        && (rows.claim.value.owner == None || rows.claim.value.owner == Some(h.owner))
        && rows.progress == Some(ProgressRow(h.generation, phase)))
  }

  lemma {:induction false} ProgressStays(rows: Rows, h: Handle, phase: Phase, ts: seq<Txn>)
    requires WellFormed(rows) && ProgressIs(rows, h, phase)
    requires forall k :: 0 <= k < |ts| ==> !(ts[k].Mark? && ts[k].h == h)
    ensures ProgressIs(PerformAll(rows, ts), h, phase)
    decreases |ts|
  {
    if ts != [] {
      PerformAdvances(rows, ts[0]);
      ProgressStays(Perform(rows, ts[0]), h, phase, ts[1..]);
    }
  }

  /**
   A prepared attempt can be marked: whatever others did since, a holder that is still
   current is refused its first mark for a cancellation and for nothing else.
   */
  lemma {:induction false} MarkFollowsPreparation(rows: Rows, h: Handle, prepared: int, ts: seq<Txn>, now: int)
    requires WellFormed(rows) && PrepareTxn(rows, h, prepared).1 == Prepared
    requires forall k :: 0 <= k < |ts| ==> !(ts[k].Mark? && ts[k].h == h)
    requires Current(PerformAll(PrepareTxn(rows, h, prepared).0, ts), h, now)
    ensures var after := PerformAll(PrepareTxn(rows, h, prepared).0, ts);
            MarkTxn(after, h, now).1 == if after.cancelledAt.Some? then MarkCancelled else Started
  {
    var t := Prepare(h, prepared);
    PerformAdvances(rows, t);
    ProgressStays(Perform(rows, t), h, PreNetwork, ts);
  }

  /** No result yet, as long as this claim is the latest. */
  predicate Unwritten(rows: Rows, h: Handle) {
    rows.ClaimGeneration() > h.generation
    || (&& rows.claim.Some? && rows.claim.value.generation == h.generation
        && (rows.claim.value.owner == None || rows.claim.value.owner == Some(h.owner))
        && rows.run == None)
  }

  lemma {:induction false} StaysUnwritten(rows: Rows, h: Handle, ts: seq<Txn>)
    requires WellFormed(rows) && Unwritten(rows, h)
    requires forall k :: 0 <= k < |ts| ==> !(ts[k].Write? && ts[k].h == h)
    ensures Unwritten(PerformAll(rows, ts), h)
    decreases |ts|
  {
    if ts != [] {
      PerformAdvances(rows, ts[0]);
      StaysUnwritten(Perform(rows, ts[0]), h, ts[1..]);
    }
  }

  /**
   A current holder that found no result writes its own, whatever others did since; a
   research run without its attempt record is rejected, and a lost claim is fenced.
   */
  lemma {:induction false} WriteFollowsClaim(rows: Rows, h: Handle, ts: seq<Txn>, id: int, provenance: bool, now: int)
    requires WellFormed(rows) && Owns(rows, h) && rows.run == None
    requires forall k :: 0 <= k < |ts| ==> !(ts[k].Write? && ts[k].h == h)
    ensures var after := PerformAll(rows, ts);
            var (written, outcome) := WriteTxn(after, h, id, provenance, now);
            && outcome == (if !Current(after, h, now) then WriteFenced
                           else if provenance then Written(RunRow(id, h.generation)) else WriteRejected)
            && written == if outcome.Written? then after.(run := Some(outcome.run)) else after
  {
    StaysUnwritten(rows, h, ts);
  }

  /** A current holder that finds a result is told which, and nothing is replaced. */
  lemma WriteConflictExactly(rows: Rows, h: Handle, id: int, provenance: bool, now: int)
    ensures var (after, outcome) := WriteTxn(rows, h, id, provenance, now);
            && (outcome.WriteConflict? <==> Current(rows, h, now) && rows.run.Some?)
            && (outcome.WriteConflict? ==> Some(outcome.existing) == rows.run && after == rows)
            && (outcome.WriteFenced? <==> !Current(rows, h, now))
  {}

  // ----- cancellation

  /** A plan that has not crossed and has no result can always be cancelled, and no other plan can. */
  lemma CancelledExactly(rows: Rows, now: int)
    ensures var (after, outcome) := CancelTxn(rows, now);
            && (outcome.CancelRecorded? <==> !rows.Crossed() && rows.run.None?)
            && (outcome.CancelRecorded? ==> outcome.at == (if rows.cancelledAt.Some? then rows.cancelledAt.value else now))
            && after == rows.(cancelledAt := if outcome.CancelRecorded? then Some(outcome.at) else rows.cancelledAt)
            && (rows.run.Some? ==> outcome == CancelCompleted)
            && (rows.run.None? && rows.Crossed() ==> outcome == CancelInDoubt)
  {}

  /** Later requests report the time of the first, and no mark succeeds any more. */
  lemma {:induction false} FirstRequestIsRemembered(rows: Rows, at: int, ts: seq<Txn>, h: Handle, now: int)
    requires WellFormed(rows) && !rows.Crossed() && rows.cancelledAt == None && rows.run == None
    ensures var after := PerformAll(CancelTxn(rows, at).0, ts);
            && after.cancelledAt == Some(at)
            && (after.run == None ==> CancelTxn(after, now) == (after, CancelRecorded(at)))
            && MarkTxn(after, h, now).1 != Started
  {
    PerformAdvances(rows, Cancel(at));
    RunAdvances(Perform(rows, Cancel(at)), ts);
  }

  // ----- the retry loop

  /** A retried call reports an outcome exactly when one of its attempts commits and says so. */
  lemma {:induction false} ReportsExactly<T>(rows: Rows, attempts: seq<Attempt>, body: (Rows, int) -> (Rows, T))
    ensures Retry(rows, attempts, body).1.Some? <==> exists k :: 0 <= k < |attempts| && attempts[k].fate.Commits?
    decreases |attempts|
  {
    if attempts != [] {
      var after := TryOnce(PerformAll(rows, attempts[0].others), attempts[0].now, attempts[0].fate, body).0;
      ReportsExactly(after, attempts[1..], body);
      if !attempts[0].fate.Commits? && Retry(after, attempts[1..], body).1.Some? {
        var k :| 0 <= k < |attempts[1..]| && attempts[1..][k].fate.Commits?;
        assert attempts[k + 1].fate.Commits?;
      }
      if !attempts[0].fate.Commits? && exists k :: 0 <= k < |attempts| && attempts[k].fate.Commits? {
        var k :| 0 <= k < |attempts| && attempts[k].fate.Commits?;
        assert attempts[1..][k - 1].fate.Commits?;
      }
    }
  }

  function OthersOf(attempts: seq<Attempt>): seq<Txn> {
    if attempts == [] then [] else attempts[0].others + OthersOf(attempts[1..])
  }

  lemma {:induction false} PerformsInTurn(rows: Rows, first: seq<Txn>, rest: seq<Txn>)
    ensures PerformAll(rows, first + rest) == PerformAll(PerformAll(rows, first), rest)
    decreases |first|
  {
    if first == [] {
      assert first + rest == rest;
    } else {
      assert (first + rest)[0] == first[0] && (first + rest)[1..] == first[1..] + rest;
      PerformsInTurn(Perform(rows, first[0]), first[1..], rest);
    }
  }

  /** Attempts that fail leave no trace: the rows are what the others made of them. */
  lemma {:induction false} FailuresLeaveNoTrace<T>(rows: Rows, attempts: seq<Attempt>, body: (Rows, int) -> (Rows, T))
    requires forall k :: 0 <= k < |attempts| ==> attempts[k].fate.Fails?
    ensures Retry(rows, attempts, body) == (PerformAll(rows, OthersOf(attempts)), None)
    decreases |attempts|
  {
    if attempts != [] {
      PerformsInTurn(rows, attempts[0].others, OthersOf(attempts[1..]));
      FailuresLeaveNoTrace(PerformAll(rows, attempts[0].others), attempts[1..], body);
    }
  }

  /** However often a caller retries, it cannot acquire a claim whose lease lasts past its last attempt. */
  lemma {:induction false} RetryingCannotAcquire(rows: Rows, h: Handle, end: int, owner: string, lease: int, attempts: seq<Attempt>)
    requires Current(rows, h, end)
    requires forall k :: 0 <= k < |attempts| ==> attempts[k].now <= end
    requires forall k, j :: 0 <= k < |attempts| && 0 <= j < |attempts[k].others| ==>
               Clock(attempts[k].others[j]) <= end && Leaves(attempts[k].others[j], h)
    ensures var (after: Rows, found: Option<Option<Handle>>) := Retry(rows, attempts, AcquireBody(owner, lease));
            Current(after, h, end) && (found.None? || found.value.None?)
    decreases |attempts|
  {
    if attempts != [] {
      var mid := PerformAll(rows, attempts[0].others);
      LeaseSurvivesAll(rows, h, attempts[0].others, end);
      LeaseExcludes(mid, h, owner, lease, attempts[0].now);
      RetryingCannotAcquire(mid, h, end, owner, lease, attempts[1..]);
    }
  }

  /**
   A caller whose acquisition committed without being reported locks itself out: while
   that lease lasts none of its retries is granted a claim either.
   */
  lemma {:induction false} UnreportedAcquisitionLocksOut(rows: Rows, owner: string, lease: int, first: Attempt, rest: seq<Attempt>)
    requires first.fate.CommitsUnreported?
    requires !Claimed(PerformAll(rows, first.others), first.now)
    requires var h := Handle(owner, PerformAll(rows, first.others).ClaimGeneration() + 1);
             && (forall k :: 0 <= k < |rest| ==> rest[k].now < first.now + lease)
             && (forall k, j :: 0 <= k < |rest| && 0 <= j < |rest[k].others| ==>
                   Clock(rest[k].others[j]) < first.now + lease && Leaves(rest[k].others[j], h))
    requires lease > 0
    ensures var (after: Rows, found: Option<Option<Handle>>) := Retry(rows, [first] + rest, AcquireBody(owner, lease));
            found.None? || found.value.None?
  {
    var mid := PerformAll(rows, first.others);
    var end := first.now + lease - 1;
    AcquiredForItsLease(mid, owner, lease, first.now, end);
    var after := AcquireTxn(mid, owner, lease, first.now).0;
    assert ([first] + rest)[0] == first && ([first] + rest)[1..] == rest;
    RetryingCannotAcquire(after, Handle(owner, mid.ClaimGeneration() + 1), end, owner, lease, rest);
  }

  // ----- any number of workers

  /** The one transaction a step performs on the rows, if it commits one. */
  function TxnOf(s: System, step: Step): Option<Txn> {
    match step
    case Crash(_) => None
    case RequestCancel(now, fate) => if fate.Fails? then None else Some(Cancel(now))
    case Work(i, now, fate, go, id) =>
      if i >= |s.workers| || fate.Fails? then None
      else
        var w := s.workers[i];
        match w.pc
        case Acquiring(_) => Some(Acquire(w.owner, w.lease, now))
        case Held(h, stage) =>
          (match stage
           case Preparing(_) => Some(Prepare(h, now))
           case Authorizing(_) => Some(Renew(h, w.lease, now))
           case Marking(_) => if w.research && !go then None else Some(Mark(h, now))
           case Finishing(provenance) => Some(Write(h, id, provenance, now))
           case Releasing(_, _) => Some(Release(h, now))
           case _ => None)
        case _ => None
  }

  /** A step is at most one transaction of its worker, with the handle it holds. */
  lemma StepIsOneTransaction(s: System, step: Step)
    ensures Next(s, step).rows == match TxnOf(s, step) case None => s.rows case Some(t) => Perform(s.rows, t)
  {}

  /** A step other than worker i's own work, with a clock up to the end of its lease. */
  predicate LeavesWorker(step: Step, i: nat, end: int) {
    match step
    case Work(j, now, _, _, _) => j != i && now <= end
    case Crash(_) => true
    case RequestCancel(now, _) => now <= end
  }

  lemma OthersHoldOtherHandles(s: System, legacy: Option<RunRow>, i: nat, step: Step, end: int)
    requires Inv(s, legacy) && i < |s.workers| && s.workers[i].pc.Held? && LeavesWorker(step, i, end)
    ensures TxnOf(s, step).Some? ==> Clock(TxnOf(s, step).value) <= end && Leaves(TxnOf(s, step).value, s.workers[i].pc.h)
  {}

  lemma OthersLeaveTheWorker(s: System, step: Step, i: nat, end: int)
    requires i < |s.workers| && LeavesWorker(step, i, end)
    ensures |Next(s, step).workers| == |s.workers|
    ensures Next(s, step).workers[i].pc == s.workers[i].pc || (step == Crash(i) && Next(s, step).workers[i].pc == Crashed)
  {}

  /** Nobody comes to hold a claim in a step taken while one is current. */
  lemma NoNewHolder(s: System, step: Step, h: Handle, end: int, j: nat)
    requires Current(s.rows, h, end) && j < |s.workers|
    requires step.Work? ==> step.now <= end
    requires Next(s, step).workers[j].pc.Held?
    ensures s.workers[j].pc.Held? && Next(s, step).workers[j].pc.h == s.workers[j].pc.h
  {
    if step.Work? && s.workers[j].pc.Acquiring? {
      LeaseExcludes(s.rows, h, s.workers[j].owner, s.workers[j].lease, step.now);
    }
  }

  lemma {:induction false} LeaseHoldsForWorkers(s: System, legacy: Option<RunRow>, h: Handle, i: nat, steps: seq<Step>, end: int)
    requires Inv(s, legacy) && i < |s.workers| && Current(s.rows, h, end)
    requires s.workers[i].pc.Crashed? || (s.workers[i].pc.Held? && s.workers[i].pc.h == h)
    requires forall k :: 0 <= k < |steps| ==> LeavesWorker(steps[k], i, end)
    requires forall j :: 0 <= j < |s.workers| && j != i && s.workers[j].pc.Held? ==> s.workers[j].pc.h != h
    ensures |Run(s, steps).workers| == |s.workers|
    ensures Current(Run(s, steps).rows, h, end)
    ensures forall j :: 0 <= j < |s.workers| && Run(s, steps).workers[j].pc.Held? ==>
              s.workers[j].pc.Held? && Run(s, steps).workers[j].pc.h == s.workers[j].pc.h
    decreases |steps|
  {
    if steps != [] {
      var t := Next(s, steps[0]);
      NextKeepsInv(s, legacy, steps[0]);
      StepLeavesLease(s, h, i, steps[0], end);
      OthersLeaveTheWorker(s, steps[0], i, end);
      forall j | 0 <= j < |s.workers| && t.workers[j].pc.Held?
        ensures s.workers[j].pc.Held? && t.workers[j].pc.h == s.workers[j].pc.h
      {
        NoNewHolder(s, steps[0], h, end, j);
      }
      LeaseHoldsForWorkers(t, legacy, h, i, steps[1..], end);
    }
  }

  lemma StepLeavesLease(s: System, h: Handle, i: nat, step: Step, end: int)
    requires Current(s.rows, h, end) && LeavesWorker(step, i, end)
    requires forall j :: 0 <= j < |s.workers| && j != i && s.workers[j].pc.Held? ==> s.workers[j].pc.h != h
    ensures Current(Next(s, step).rows, h, end)
  {
    StepIsOneTransaction(s, step);
    if TxnOf(s, step).Some? {
      LeaseSurvives(s.rows, h, TxnOf(s, step).value, end);
    }
  }

  /**
   The lease excludes: from any reachable state in which a worker holds a current claim,
   whatever the others do and even if that worker crashes, until its lease ends its claim
   stays current, no other worker comes to hold one, and what others hold is not current.
   */
  lemma {:induction false} LeaseExcludesWorkers(init: System, first: seq<Step>, rest: seq<Step>, i: nat, end: int)
    requires Initial(init)
    requires var s := Run(init, first); i < |s.workers| && s.workers[i].pc.Held? && Current(s.rows, s.workers[i].pc.h, end)
    requires forall k :: 0 <= k < |rest| ==> LeavesWorker(rest[k], i, end)
    ensures var s, t := Run(init, first), Run(init, first + rest);
            && |t.workers| == |s.workers|
            && Current(t.rows, s.workers[i].pc.h, end)
            && (forall j :: 0 <= j < |t.workers| && t.workers[j].pc.Held? ==>
                  s.workers[j].pc.Held? && t.workers[j].pc.h == s.workers[j].pc.h)
            && (forall j, now :: 0 <= j < |t.workers| && j != i && t.workers[j].pc.Held? ==> !Current(t.rows, t.workers[j].pc.h, now))
  {
    var s := Run(init, first);
    RunKeepsInv(init, init.rows.run, first);
    RunSplits(init, first, rest);
    LeaseHoldsForWorkers(s, init.rows.run, s.workers[i].pc.h, i, rest, end);
  }
}
