/**
 The four rows through which workers coordinate one execution plan, and the
 effect of every transaction on them. A transaction is atomic: the services lock
 the plan row or the claim row for its whole duration. The database clock is a
 parameter of each transaction and is never assumed to move forward.
 */
module PlanRows {
  import opened Wrappers

  datatype Phase = PreNetwork | NetworkStarted | InDoubt {
    /** The attempt may have crossed the network boundary. */
    predicate Crossed() { this != PreNetwork }
  }

  datatype ClaimRow = ClaimRow(owner: Option<string>, generation: int, leaseExpiresAt: int)

  datatype ProgressRow = ProgressRow(generation: int, phase: Phase)

  /** A canonical result. `generation` remembers which claim wrote it. */
  datatype RunRow = RunRow(id: int, generation: int)

  datatype Rows = Rows(
    claim: Option<ClaimRow>,
    progress: Option<ProgressRow>,
    cancelledAt: Option<int>,
    run: Option<RunRow>)
  {
    predicate Crossed() { progress.Some? && progress.value.phase.Crossed() }

    function ClaimGeneration(): int { if claim.Some? then claim.value.generation else 0 }
  }

  datatype Handle = Handle(owner: string, generation: int)

  /** The claim is owned by exactly this handle and its lease has not ended. */
  predicate Current(rows: Rows, h: Handle, now: int) {
    && rows.claim.Some?
    && rows.claim.value.owner == Some(h.owner)
    && rows.claim.value.generation == h.generation
    && rows.claim.value.leaseExpiresAt > now
  }

  // ----- execution_plan_claims

  function AcquireTxn(rows: Rows, owner: string, lease: int, now: int): (Rows, Option<Handle>) {
    match rows.claim
    case None =>
      (rows.(claim := Some(ClaimRow(Some(owner), 1, now + lease))), Some(Handle(owner, 1)))
    case Some(c) =>
      if c.owner.None? || c.leaseExpiresAt <= now then
        (rows.(claim := Some(ClaimRow(Some(owner), c.generation + 1, now + lease))),
         Some(Handle(owner, c.generation + 1)))
      else
        (rows, None)
  }

  function RenewTxn(rows: Rows, h: Handle, lease: int, now: int): (Rows, bool) {
    if Current(rows, h, now) then
      (rows.(claim := Some(rows.claim.value.(leaseExpiresAt := now + lease))), true)
    else
      (rows, false)
  }

  predicate Owns(rows: Rows, h: Handle) {
    rows.claim.Some? && rows.claim.value.owner == Some(h.owner) && rows.claim.value.generation == h.generation
  }

  /** Releasing does not look at the lease: an expired owner may still give its claim back. */
  function ReleaseTxn(rows: Rows, h: Handle, now: int): (Rows, bool) {
    if Owns(rows, h) then
      (rows.(claim := Some(ClaimRow(None, h.generation, now))), true)
    else
      (rows, false)
  }

  /** The follow-up query of a release that matched no row: was this claim already released? */
  predicate Released(rows: Rows, h: Handle) {
    rows.claim.Some? && rows.claim.value.owner.None? && rows.claim.value.generation == h.generation
  }

  // ----- execution_plan_progress

  datatype PrepareOutcome = Prepared | PrepareInDoubt | PrepareLost

  function PrepareTxn(rows: Rows, h: Handle, now: int): (Rows, PrepareOutcome) {
    if !Current(rows, h, now) then
      (rows, PrepareLost)
    else if rows.progress.None?
            || (rows.progress.value.phase == PreNetwork && rows.progress.value.generation <= h.generation) then
      (rows.(progress := Some(ProgressRow(h.generation, PreNetwork))), Prepared)
    else if rows.progress.value.phase.Crossed() then
      (rows, PrepareInDoubt)
    else
      (rows, PrepareLost)
  }

  datatype MarkOutcome = Started | MarkLost | MarkCancelled

  function MarkTxn(rows: Rows, h: Handle, now: int): (Rows, MarkOutcome) {
    if !Current(rows, h, now) then
      (rows, MarkLost)
    else if rows.cancelledAt.Some? then
      (rows, MarkCancelled)
    else if rows.progress == Some(ProgressRow(h.generation, PreNetwork)) then
      (rows.(progress := Some(ProgressRow(h.generation, NetworkStarted))), Started)
    else
      (rows, MarkLost)
  }

  // ----- execution_plan_cancellations

  datatype CancelOutcome = CancelRecorded(at: int) | CancelCompleted | CancelInDoubt

  function CancelTxn(rows: Rows, now: int): (Rows, CancelOutcome) {
    if rows.run.Some? then
      (rows, CancelCompleted)
    else if rows.Crossed() then
      (rows, CancelInDoubt)
    else if rows.cancelledAt.Some? then
      (rows, CancelRecorded(rows.cancelledAt.value))
    else
      (rows.(cancelledAt := Some(now)), CancelRecorded(now))
  }

  // ----- test_runs

  datatype WriteOutcome = Written(run: RunRow) | WriteFenced | WriteConflict(existing: RunRow) | WriteRejected

  /**
   The result transaction: the claim row is locked and checked, the unique row is
   inserted, and a research run additionally needs its durable attempt record.
   */
  function WriteTxn(rows: Rows, h: Handle, id: int, provenance: bool, now: int): (Rows, WriteOutcome) {
    if !Current(rows, h, now) then
      (rows, WriteFenced)
    else if rows.run.Some? then
      (rows, WriteConflict(rows.run.value))
    else if !provenance then
      (rows, WriteRejected)
    else
      var run := RunRow(id, h.generation);
      (rows.(run := Some(run)), Written(run))
  }

  // ----- any transaction, by anybody

  datatype Txn =
    | Acquire(owner: string, lease: int, now: int)
    | Renew(h: Handle, lease: int, now: int)
    | Release(h: Handle, now: int)
    | Prepare(h: Handle, now: int)
    | Mark(h: Handle, now: int)
    | Cancel(now: int)
    | Write(h: Handle, id: int, provenance: bool, now: int)

  function Perform(rows: Rows, t: Txn): Rows {
    match t
    case Acquire(owner, lease, now) => AcquireTxn(rows, owner, lease, now).0
    case Renew(h, lease, now) => RenewTxn(rows, h, lease, now).0
    case Release(h, now) => ReleaseTxn(rows, h, now).0
    case Prepare(h, now) => PrepareTxn(rows, h, now).0
    case Mark(h, now) => MarkTxn(rows, h, now).0
    case Cancel(now) => CancelTxn(rows, now).0
    case Write(h, id, provenance, now) => WriteTxn(rows, h, id, provenance, now).0
  }

  function PerformAll(rows: Rows, ts: seq<Txn>): Rows
    decreases |ts|
  {
    if ts == [] then rows else PerformAll(Perform(rows, ts[0]), ts[1..])
  }

  /** How many of the transactions are network marks that succeed. */
  function Marks(rows: Rows, ts: seq<Txn>): nat
    decreases |ts|
  {
    if ts == [] then 0
    else
      (if ts[0].Mark? && MarkTxn(rows, ts[0].h, ts[0].now).1 == Started then 1 else 0)
      + Marks(Perform(rows, ts[0]), ts[1..])
  }

  /** Each row constraint and the one relation between two rows that fencing rests on. */
  predicate WellFormed(rows: Rows) {
    && (rows.claim.Some? ==> rows.claim.value.generation > 0)
    && (rows.progress.Some? ==> 0 < rows.progress.value.generation <= rows.ClaimGeneration())
    && (rows.cancelledAt.Some? ==> !rows.Crossed())
  }

  /** No transaction lowers a generation, leaves a crossed phase, drops a cancellation, or replaces a result. */
  predicate Advances(before: Rows, after: Rows) {
    && before.ClaimGeneration() <= after.ClaimGeneration()
    && (before.Crossed() ==> after.progress == before.progress)
    && (before.cancelledAt.Some? ==> after.cancelledAt == before.cancelledAt)
    && (before.run.Some? ==> after.run == before.run)
  }

  lemma PerformAdvances(rows: Rows, t: Txn)
    requires WellFormed(rows)
    ensures WellFormed(Perform(rows, t)) && Advances(rows, Perform(rows, t))
  {}

  /** Whatever anybody does, with any handle and any clock, the rows only advance. */
  lemma {:induction false} RunAdvances(rows: Rows, ts: seq<Txn>)
    requires WellFormed(rows)
    ensures WellFormed(PerformAll(rows, ts)) && Advances(rows, PerformAll(rows, ts))
    decreases |ts|
  {
    if ts != [] {
      PerformAdvances(rows, ts[0]);
      RunAdvances(Perform(rows, ts[0]), ts[1..]);
    }
  }

  /** The network mark succeeds at most once, and never once a mark, doubt or cancellation is recorded. */
  lemma {:induction false} MarkSucceedsAtMostOnce(rows: Rows, ts: seq<Txn>)
    requires WellFormed(rows)
    ensures Marks(rows, ts) <= 1
    ensures rows.Crossed() || rows.cancelledAt.Some? ==> Marks(rows, ts) == 0
    decreases |ts|
  {
    if ts != [] {
      PerformAdvances(rows, ts[0]);
      MarkSucceedsAtMostOnce(Perform(rows, ts[0]), ts[1..]);
    }
  }

  /** Every successful acquisition takes a generation above every earlier one. */
  lemma {:induction false} AcquisitionsStrictlyIncrease(rows: Rows, ts: seq<Txn>, a: Txn, b: Txn)
    requires WellFormed(rows) && a.Acquire? && b.Acquire?
    requires AcquireTxn(rows, a.owner, a.lease, a.now).1.Some?
    requires AcquireTxn(PerformAll(Perform(rows, a), ts), b.owner, b.lease, b.now).1.Some?
    ensures AcquireTxn(rows, a.owner, a.lease, a.now).1.value.generation
            < AcquireTxn(PerformAll(Perform(rows, a), ts), b.owner, b.lease, b.now).1.value.generation
  {
    PerformAdvances(rows, a);
    RunAdvances(Perform(rows, a), ts);
  }

  /** Two handles accepted in one state are the same handle. */
  lemma CurrentHandleIsUnique(rows: Rows, h: Handle, k: Handle, at: int, at': int)
    requires Current(rows, h, at) && Current(rows, k, at')
    ensures h == k
  {}

  /** A current holder can be refused an attempt only because the plan is in doubt, and exactly then. */
  lemma PrepareRefusedOnlyInDoubt(rows: Rows, h: Handle, now: int)
    requires WellFormed(rows) && Current(rows, h, now)
    ensures PrepareTxn(rows, h, now).1 == if rows.Crossed() then PrepareInDoubt else Prepared
  {}

  /**
   Releasing twice is releasing once: after a release, and any transactions that do
   not acquire, a second release changes nothing and is reported as already done.
   */
  lemma {:induction false} ReleaseIsIdempotent(rows: Rows, h: Handle, now: int, ts: seq<Txn>, again: int)
    requires Owns(rows, h)
    requires forall i :: 0 <= i < |ts| ==> !ts[i].Acquire?
    ensures var later := PerformAll(ReleaseTxn(rows, h, now).0, ts);
            Released(later, h) && ReleaseTxn(later, h, again) == (later, false)
  {
    StaysReleased(ReleaseTxn(rows, h, now).0, h, ts);
  }

  lemma {:induction false} StaysReleased(rows: Rows, h: Handle, ts: seq<Txn>)
    requires Released(rows, h)
    requires forall i :: 0 <= i < |ts| ==> !ts[i].Acquire?
    ensures Released(PerformAll(rows, ts), h)
    decreases |ts|
  {
    if ts != [] {
      StaysReleased(Perform(rows, ts[0]), h, ts[1..]);
    }
  }
}
