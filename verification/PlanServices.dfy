/**
 The claim, progress and cancellation services over one plan's rows. Every call
 retries a bounded number of times; an attempt may fail cleanly or commit and
 still be reported as failed, and other parties act between two attempts.
 */
module PlanServices {
  import opened Wrappers
  import opened PlanRows

  /** What happens to one attempt of a transaction. */
  datatype Fate = Commits | Fails | CommitsUnreported

  /** One attempt: what others did first, the clock it reads, and its fate. */
  datatype Attempt = Attempt(others: seq<Txn>, now: int, fate: Fate)

  /** The rows after one attempt, and the outcome if the caller learns it. */
  function TryOnce<T>(rows: Rows, now: int, fate: Fate, body: (Rows, int) -> (Rows, T)): (Rows, Option<T>) {
    match fate
    case Commits => (body(rows, now).0, Some(body(rows, now).1))
    case Fails => (rows, None)
    case CommitsUnreported => (body(rows, now).0, None)
  }

  function Retry<T>(rows: Rows, attempts: seq<Attempt>, body: (Rows, int) -> (Rows, T)): (Rows, Option<T>)
    decreases |attempts|
  {
    if attempts == [] then (rows, None)
    else
      var (after, r) := TryOnce(PerformAll(rows, attempts[0].others), attempts[0].now, attempts[0].fate, body);
      if r.Some? then (after, r) else Retry(after, attempts[1..], body)
  }

  function RenewBody(h: Handle, lease: int): (Rows, int) -> (Rows, bool) {
    (rows, now) => RenewTxn(rows, h, lease, now)
  }

  function AcquireBody(owner: string, lease: int): (Rows, int) -> (Rows, Option<Handle>) {
    (rows, now) => AcquireTxn(rows, owner, lease, now)
  }

  function ReleaseBody(h: Handle): (Rows, int) -> (Rows, bool) {
    (rows, now) => ReleaseTxn(rows, h, now)
  }

  function ReleasedBody(h: Handle): (Rows, int) -> (Rows, bool) {
    (rows, now) => (rows, Released(rows, h))
  }

  function PrepareBody(h: Handle): (Rows, int) -> (Rows, PrepareOutcome) {
    (rows, now) => PrepareTxn(rows, h, now)
  }

  function MarkBody(h: Handle): (Rows, int) -> (Rows, MarkOutcome) {
    (rows, now) => MarkTxn(rows, h, now)
  }

  function CancelBody(): (Rows, int) -> (Rows, CancelOutcome) {
    (rows, now) => CancelTxn(rows, now)
  }

  datatype ServiceError = Unavailable | Lost | Cancelled | InDoubt | Completed | Coordination

  class PlanDatabase {
    var claim: Option<ClaimRow>
    var progress: Option<ProgressRow>
    var cancelledAt: Option<int>
    var run: Option<RunRow>

    /** The four rows of a plan nobody has touched. */
    constructor ()
      ensures State() == Rows(None, None, None, None)
    {
      claim, progress, cancelledAt, run := None, None, None, None;
    }

    function State(): Rows
      reads this
    {
      Rows(claim, progress, cancelledAt, run)
    }

    method Store(rows: Rows)
      modifies this
      ensures State() == rows
    {
      claim, progress, cancelledAt, run := rows.claim, rows.progress, rows.cancelledAt, rows.run;
    }

    /** The retry loop every service runs its transactions through. */
    method RunTransaction<T>(attempts: seq<Attempt>, body: (Rows, int) -> (Rows, T)) returns (r: Option<T>)
      modifies this
      ensures (State(), r) == Retry(old(State()), attempts, body)
    {
      var k := 0;
      r := None;
      while k < |attempts|
        invariant 0 <= k <= |attempts|
        invariant r == None
        invariant Retry(old(State()), attempts, body) == Retry(State(), attempts[k..], body)
      {
        var attempt := attempts[k];
        assert attempts[k..][1..] == attempts[k + 1..];
        Store(PerformAll(State(), attempt.others));
        var (after, outcome) := TryOnce(State(), attempt.now, attempt.fate, body);
        Store(after);
        if outcome.Some? {
          return outcome;
        }
        k := k + 1;
      }
    }

    method Acquire(owner: string, lease: int, attempts: seq<Attempt>) returns (r: Result<Handle, ServiceError>)
      modifies this
      ensures var (rows: Rows, found: Option<Option<Handle>>) := Retry(old(State()), attempts, AcquireBody(owner, lease));
              && State() == rows
              && r == (match found
                       case None => Err(Coordination)
                       case Some(None) => Err(Unavailable)
                       case Some(Some(h)) => Ok(h))
      ensures r.Ok? ==> Owns(State(), r.value)
    {
      var found := RunTransaction(attempts, AcquireBody(owner, lease));
      RetryEndsIn(old(State()), attempts, AcquireBody(owner, lease));
      match found {
        case None => r := Err(Coordination);
        case Some(None) => r := Err(Unavailable);
        case Some(Some(h)) => r := Ok(h);
      }
    }

    method Renew(h: Handle, lease: int, attempts: seq<Attempt>) returns (r: Result<Handle, ServiceError>)
      modifies this
      ensures var (rows, renewed) := Retry(old(State()), attempts, RenewBody(h, lease));
              && State() == rows
              && r == (match renewed
                       case None => Err(Coordination)
                       case Some(false) => Err(Lost)
                       case Some(true) => Ok(h))
      ensures r.Ok? ==> r.value == h && Owns(State(), h)
    {
      var renewed := RunTransaction(attempts, RenewBody(h, lease));
      RetryEndsIn(old(State()), attempts, RenewBody(h, lease));
      r := if renewed.None? then Err(Coordination) else if renewed.value then Ok(h) else Err(Lost);
    }

    /** Two calls: the update, and only if it matched no row the check for an earlier release. */
    method Release(h: Handle, first: seq<Attempt>, second: seq<Attempt>) returns (r: Result<(), ServiceError>)
      modifies this
      ensures r.Ok? ==> Released(State(), h)
      ensures var (rows, released) := Retry(old(State()), first, ReleaseBody(h));
              if released == Some(false) then
                var (after, already) := Retry(rows, second, ReleasedBody(h));
                && State() == after
                && r == (if already.None? then Err(Coordination) else if already.value then Ok(()) else Err(Lost))
              else
                State() == rows && r == (if released.None? then Err(Coordination) else Ok(()))
    {
      var released := RunTransaction(first, ReleaseBody(h));
      RetryEndsIn(old(State()), first, ReleaseBody(h));
      if released == None {
        return Err(Coordination);
      }
      if released.value {
        return Ok(());
      }
      label checking:
      var already := RunTransaction(second, ReleasedBody(h));
      RetryEndsIn(old@checking(State()), second, ReleasedBody(h));
      r := if already.None? then Err(Coordination) else if already.value then Ok(()) else Err(Lost);
    }

    method PrepareAttempt(h: Handle, attempts: seq<Attempt>) returns (r: Result<(), ServiceError>)
      modifies this
      ensures r.Ok? ==> State().progress == Some(ProgressRow(h.generation, PreNetwork))
      ensures var (rows: Rows, outcome: Option<PrepareOutcome>) := Retry(old(State()), attempts, PrepareBody(h));
              && State() == rows
              && r == (match outcome
                       case None => Err(Coordination)
                       case Some(Prepared) => Ok(())
                       case Some(PrepareInDoubt) => Err(ServiceError.InDoubt)
                       case Some(PrepareLost) => Err(Lost))
    {
      var outcome := RunTransaction(attempts, PrepareBody(h));
      RetryEndsIn(old(State()), attempts, PrepareBody(h));
      match outcome {
        case None => r := Err(Coordination);
        case Some(Prepared) => r := Ok(());
        case Some(PrepareInDoubt) => r := Err(ServiceError.InDoubt);
        case Some(PrepareLost) => r := Err(Lost);
      }
    }

    method MarkNetworkStarted(h: Handle, attempts: seq<Attempt>) returns (r: Result<(), ServiceError>)
      modifies this
      ensures var (rows: Rows, outcome: Option<MarkOutcome>) := Retry(old(State()), attempts, MarkBody(h));
              && State() == rows
              && r == (match outcome
                       case None => Err(Coordination)
                       case Some(Started) => Ok(())
                       case Some(MarkLost) => Err(Lost)
                       case Some(MarkCancelled) => Err(Cancelled))
      // A success leaves the mark; an already crossed or cancelled plan admits no success.
      ensures r.Ok? ==> State().progress == Some(ProgressRow(h.generation, NetworkStarted)) && State().cancelledAt == None
      ensures WellFormed(old(State())) && (old(State()).Crossed() || old(State()).cancelledAt.Some?) ==> r.Err?
    {
      var outcome := RunTransaction(attempts, MarkBody(h));
      RetryEndsIn(old(State()), attempts, MarkBody(h));
      if WellFormed(old(State())) && (old(State()).Crossed() || old(State()).cancelledAt.Some?) {
        MarkStaysRefused(old(State()), h, attempts);
      }
      match outcome {
        case None => r := Err(Coordination);
        case Some(Started) => r := Ok(());
        case Some(MarkLost) => r := Err(Lost);
        case Some(MarkCancelled) => r := Err(Cancelled);
      }
    }

    method RequestCancel(attempts: seq<Attempt>) returns (r: Result<int, ServiceError>)
      modifies this
      ensures var (rows: Rows, outcome: Option<CancelOutcome>) := Retry(old(State()), attempts, CancelBody());
              && State() == rows
              && r == (match outcome
                       case None => Err(Coordination)
                       case Some(CancelRecorded(at)) => Ok(at)
                       case Some(CancelCompleted) => Err(Completed)
                       case Some(CancelInDoubt) => Err(ServiceError.InDoubt))
      ensures r.Ok? ==> State().cancelledAt == Some(r.value) && !State().Crossed() && State().run == None
    {
      var outcome := RunTransaction(attempts, CancelBody());
      RetryEndsIn(old(State()), attempts, CancelBody());
      match outcome {
        case None => r := Err(Coordination);
        case Some(CancelRecorded(at)) => r := Ok(at);
        case Some(CancelCompleted) => r := Err(Completed);
        case Some(CancelInDoubt) => r := Err(ServiceError.InDoubt);
      }
    }
  }

  /** A retried call that reports an outcome ends exactly in the body's result on some state the rows passed through. */
  lemma {:induction false} RetryEndsIn<T>(rows: Rows, attempts: seq<Attempt>, body: (Rows, int) -> (Rows, T))
    ensures var (after, r) := Retry(rows, attempts, body);
            r.Some? ==> exists mid: Rows, now: int :: body(mid, now) == (after, r.value)
    decreases |attempts|
  {
    if attempts != [] {
      var mid := PerformAll(rows, attempts[0].others);
      var (after, r) := TryOnce(mid, attempts[0].now, attempts[0].fate, body);
      if r.Some? {
        assert body(mid, attempts[0].now) == (after, r.value);
      } else {
        RetryEndsIn(after, attempts[1..], body);
      }
    }
  }

  /**
   A mark that committed without being reported is never turned into a success by
   retrying: the second attempt finds the crossed phase and reports the claim lost.
   */
  lemma {:induction false} MarkStaysRefused(rows: Rows, h: Handle, attempts: seq<Attempt>)
    requires WellFormed(rows)
    requires rows.Crossed() || rows.cancelledAt.Some?
    ensures Retry(rows, attempts, MarkBody(h)).1 != Some(Started)
    decreases |attempts|
  {
    if attempts != [] {
      var mid := PerformAll(rows, attempts[0].others);
      RunAdvances(rows, attempts[0].others);
      assert MarkTxn(mid, h, attempts[0].now).1 != Started && MarkTxn(mid, h, attempts[0].now).0 == mid;
      MarkStaysRefused(mid, h, attempts[1..]);
    }
  }
}
