/**
 How an execute call ends: in how many of its own steps, with which verdict on a
 plan in which state when nothing disturbs it, and what a cancellation does to it.
 */
module PlanVerdicts {
  import opened Wrappers
  import opened PlanRows
  import opened PlanServices
  import opened PlanWorkers
  import opened PlanLeases

  // ----- every call ends

  /** How many attempts are left at a retried call, which are never more than the worker's retries. */
  function Left(pc: Pc): nat {
    match pc
    case PreflightCancel(left) => left
    case Acquiring(left) => left
    case Held(_, FreshCancel(left)) => left
    case Held(_, Preparing(left)) => left
    case Held(_, Authorizing(left)) => left
    case Held(_, Marking(left)) => left
    case Held(_, Releasing(left, _)) => left
    case _ => 0
  }

  function Ahead(pc: Pc): nat {
    match pc
    case Preflight => 12
    case PreflightCancel(_) => 11
    case Acquiring(_) => 10
    case ClaimUnavailable => 1
    case Held(_, FreshResult) => 9
    case Held(_, FreshCancel(_)) => 8
    case Held(_, Preparing(_)) => 7
    case Held(_, Authorizing(_)) => 6
    case Held(_, Marking(_)) => 5
    case Held(_, Boundary) => 4
    case Held(_, Finishing(_)) => 3
    case Held(_, Releasing(_, _)) => 2
    case _ => 0
  }

  /** An upper bound on the steps an execute call still takes. */
  function Budget(w: Worker): nat {
    Ahead(w.pc) * (w.retries + 1) + Left(w.pc)
  }

  predicate Ended(pc: Pc) { pc.Done? || pc.Crashed? }

  /** The work steps of one worker among some steps. */
  function Turns(steps: seq<Step>, i: nat): nat {
    if steps == [] then 0 else (if steps[0].Work? && steps[0].worker == i then 1 else 0) + Turns(steps[1..], i)
  }

  predicate Later(w: Worker, pc: Pc) {
    && Left(pc) <= w.retries
    && (Ahead(pc) < Ahead(w.pc) || (Ahead(pc) == Ahead(w.pc) && Left(pc) < Left(w.pc)))
  }

  lemma {:induction false} FewerStages(a: nat, b: nat, r: nat)
    requires a < b
    ensures a * r + r <= b * r
    decreases b
  {
    if a + 1 < b {
      FewerStages(a, b - 1, r);
      assert (b - 1) * r + r == b * r;
    } else {
      assert (a + 1) * r == a * r + r;
    }
  }

  lemma Descends(w: Worker, v: Worker)
    requires v.retries == w.retries && Later(w, v.pc)
    ensures Budget(v) < Budget(w)
  {
    if Ahead(v.pc) < Ahead(w.pc) {
      FewerStages(Ahead(v.pc), Ahead(w.pc), w.retries + 1);
    }
  }

  lemma UnclaimedDescends(s: System, w: Worker, now: int, fate: Fate, go: bool)
    requires !w.pc.Held? && !Ended(w.pc) && Left(w.pc) <= w.retries
    ensures Later(w, WorkUnclaimed(s, w, now, fate, go).1)
  {}

  lemma ClaimedDescends(s: System, w: Worker, h: Handle, stage: Stage, now: int, fate: Fate, go: bool)
    requires w.pc == Held(h, stage) && Left(w.pc) <= w.retries
    requires !stage.Marking? && !stage.Boundary? && !stage.Finishing?
    ensures Later(w, WorkClaimed(s, w, h, stage, now, fate, go).1)
  {}

  lemma CrossingDescends(s: System, w: Worker, h: Handle, now: int, fate: Fate, go: bool, id: int)
    requires w.pc.Held? && w.pc.h == h && Left(w.pc) <= w.retries
    ensures w.pc.stage.Marking? ==> Later(w, MarkBoundary(s, w, h, w.pc.stage.left, now, fate, go).1)
    ensures w.pc.stage.Boundary? ==> Later(w, CrossBoundary(s, w, h, now, fate, go).0)
    ensures w.pc.stage.Finishing? ==> Later(w, FinishRun(s, w, h, w.pc.stage.provenance, now, fate, go, id).1)
  {}

  lemma OwnStepDescends(s: System, i: nat, now: int, fate: Fate, go: bool, id: int)
    requires i < |s.workers| && !Ended(s.workers[i].pc) && Left(s.workers[i].pc) <= s.workers[i].retries
    ensures var w, v := s.workers[i], DoWork(s, i, now, fate, go, id).workers[i];
            v.retries == w.retries && Later(w, v.pc)
  {
    var w := s.workers[i];
    if !w.pc.Held? {
      UnclaimedDescends(s, w, now, fate, go);
    } else if w.pc.stage.Marking? || w.pc.stage.Boundary? || w.pc.stage.Finishing? {
      CrossingDescends(s, w, w.pc.h, now, fate, go, id);
    } else {
      ClaimedDescends(s, w, w.pc.h, w.pc.stage, now, fate, go);
    }
  }

  lemma OthersLeaveIt(s: System, step: Step, i: nat)
    requires i < |s.workers| && !(step.Work? && step.worker == i)
    ensures |Next(s, step).workers| == |s.workers|
    ensures Next(s, step).workers[i] == s.workers[i] || Next(s, step).workers[i].pc.Crashed?
    ensures Ended(s.workers[i].pc) ==> Ended(Next(s, step).workers[i].pc)
    ensures Next(s, step).workers[i].retries == s.workers[i].retries
  {}

  lemma EndedStaysEnded(s: System, i: nat, now: int, fate: Fate, go: bool, id: int)
    requires i < |s.workers| && Ended(s.workers[i].pc)
    ensures DoWork(s, i, now, fate, go, id).workers == s.workers
  {
    assert s.workers[i := s.workers[i].(pc := s.workers[i].pc)] == s.workers;
  }

  lemma {:induction false} EndsWithinItsBudget(s: System, steps: seq<Step>, i: nat)
    requires i < |s.workers| && Left(s.workers[i].pc) <= s.workers[i].retries
    requires Turns(steps, i) >= Budget(s.workers[i]) || Ended(s.workers[i].pc)
    ensures i < |Run(s, steps).workers| && Ended(Run(s, steps).workers[i].pc)
    decreases |steps|
  {
    if steps == [] {
      NoBudgetIsEnded(s.workers[i]);
    } else {
      if steps[0].Work? && steps[0].worker == i {
        var Work(_, now, fate, go, id) := steps[0];
        if Ended(s.workers[i].pc) {
          EndedStaysEnded(s, i, now, fate, go, id);
        } else {
          OwnStepDescends(s, i, now, fate, go, id);
          Descends(s.workers[i], Next(s, steps[0]).workers[i]);
        }
      } else {
        OthersLeaveIt(s, steps[0], i);
      }
      EndsWithinItsBudget(Next(s, steps[0]), steps[1..], i);
    }
  }

  lemma NoBudgetIsEnded(w: Worker)
    requires Budget(w) == 0 || Ended(w.pc)
    ensures Ended(w.pc)
  {
    if Ahead(w.pc) > 0 {
      assert Ahead(w.pc) * (w.retries + 1) > 0;
    }
  }

  /**
   Whatever the other workers, the clock, the database and the network do, an execute
   call ends after at most twelve steps of its own for each permitted attempt and one more.
   */
  lemma {:induction false} EveryCallEnds(init: System, steps: seq<Step>, i: nat)
    requires Initial(init) && i < |init.workers|
    requires Turns(steps, i) >= 12 * (init.workers[i].retries + 1)
    ensures i < |Run(init, steps).workers| && Ended(Run(init, steps).workers[i].pc)
  {
    EndsWithinItsBudget(init, steps, i);
  }

  // ----- the verdict of a call that nothing disturbs

  lemma OneStep(s: System, step: Step)
    ensures Run(s, seq(1, _ => step)) == Next(s, step)
  {
    assert seq(1, _ => step) == [step];
    assert Run(Next(s, step), [step][1..]) == Next(s, step);
  }

  lemma {:induction false} DoneStays(s: System, i: nat, k: nat, now: int, id: int)
    requires i < |s.workers| && s.workers[i].pc.Done?
    ensures Run(s, seq(k, _ => Smooth(i, now, id))) == s
  {
    if k > 0 {
      var step := Smooth(i, now, id);
      assert seq(k, _ => step)[0] == step && seq(k, _ => step)[1..] == seq(k - 1, _ => step);
      EndedStaysEnded(s, i, now, Commits, true, id);
      DoneStays(s, i, k - 1, now, id);
    }
  }

  lemma DoneAfterAll(s: System, i: nat, k: nat, n: nat, now: int, id: int, t: System)
    requires k <= n && i < |t.workers| && t.workers[i].pc.Done?
    requires Run(s, seq(k, _ => Smooth(i, now, id))) == t
    ensures Run(s, seq(n, _ => Smooth(i, now, id))) == t
  {
    RunOfSame(s, Smooth(i, now, id), k, n - k);
    DoneStays(t, i, n - k, now, id);
  }

  /** A finished plan: its result is returned at the first look. */
  lemma FinishedIsReturned(s: System, i: nat, now: int, id: int)
    requires i < |s.workers| && s.workers[i].pc == Preflight && s.rows.run.Some?
    ensures Run(s, seq(11, _ => Smooth(i, now, id)))
            == At(s, i, s.rows, Done(Returned(s.rows.run.value)), s.marks, s.sends)
  {
    OneStep(s, Smooth(i, now, id));
    DoneAfterAll(s, i, 1, 11, now, id, At(s, i, s.rows, Done(Returned(s.rows.run.value)), s.marks, s.sends));
  }

  /** A cancelled plan: the call is blocked. */
  lemma CancelledIsBlocked(s: System, i: nat, now: int, id: int)
    requires i < |s.workers| && s.workers[i].pc == Preflight && s.rows.run.None? && s.rows.cancelledAt.Some?
    ensures Run(s, seq(11, _ => Smooth(i, now, id))) == At(s, i, s.rows, Done(Blocked), s.marks, s.sends)
  {
    var w, step := s.workers[i], Smooth(i, now, id);
    AtItself(s, i);
    OneMore(s, step, 0, At(s, i, s.rows, PreflightCancel(w.retries), s.marks, s.sends));
    OneMore(s, step, 1, At(s, i, s.rows, Done(Blocked), s.marks, s.sends));
    DoneAfterAll(s, i, 2, 11, now, id, At(s, i, s.rows, Done(Blocked), s.marks, s.sends));
  }

  lemma Refused(rows: Rows, owner: string, lease: int, now: int)
    requires Claimed(rows, now)
    ensures AcquireTxn(rows, owner, lease, now) == (rows, None)
  {
    AcquiredExactly(rows, owner, lease, now);
  }

  /** A claimed plan without a result: the call is blocked. */
  lemma ClaimedIsBlocked(s: System, i: nat, now: int, id: int)
    requires i < |s.workers| && s.workers[i].pc == Preflight
    requires s.rows.run.None? && s.rows.cancelledAt.None? && Claimed(s.rows, now)
    ensures Run(s, seq(11, _ => Smooth(i, now, id))) == At(s, i, s.rows, Done(Blocked), s.marks, s.sends)
  {
    var w, step := s.workers[i], Smooth(i, now, id);
    AtItself(s, i);
    Refused(s.rows, w.owner, w.lease, now);
    OneMore(s, step, 0, At(s, i, s.rows, PreflightCancel(w.retries), s.marks, s.sends));
    OneMore(s, step, 1, At(s, i, s.rows, Acquiring(w.retries), s.marks, s.sends));
    OneMore(s, step, 2, At(s, i, s.rows, ClaimUnavailable, s.marks, s.sends));
    OneMore(s, step, 3, At(s, i, s.rows, Done(Blocked), s.marks, s.sends));
    DoneAfterAll(s, i, 4, 11, now, id, At(s, i, s.rows, Done(Blocked), s.marks, s.sends));
  }

  /** The rows after a claim of the next generation came and went. */
  function Visited(rows: Rows, now: int): Rows {
    rows.(claim := Some(ClaimRow(None, rows.ClaimGeneration() + 1, now)))
  }

  lemma PrepareIsInDoubt(s: System, i: nat, rows: Rows, now: int, id: int)
    requires i < |s.workers| && s.workers[i].lease > 0
    requires WellFormed(rows) && rows.Crossed() && rows.cancelledAt.None? && rows.run.None?
    requires rows.claim == Some(ClaimRow(Some(s.workers[i].owner), rows.ClaimGeneration(), now + s.workers[i].lease))
    ensures var g := rows.ClaimGeneration();
            Run(At(s, i, rows, Held(Handle(s.workers[i].owner, g), FreshResult), s.marks, s.sends), seq(4, _ => Smooth(i, now, id)))
            == At(s, i, rows.(claim := Some(ClaimRow(None, g, now))), Done(Failed), s.marks, s.sends)
  {
    var w, g, step := s.workers[i], rows.ClaimGeneration(), Smooth(i, now, id);
    var h := Handle(w.owner, g);
    var first := At(s, i, rows, Held(h, FreshResult), s.marks, s.sends);
    OneMore(first, step, 0, At(s, i, rows, Held(h, FreshCancel(w.retries)), s.marks, s.sends));
    OneMore(first, step, 1, At(s, i, rows, Held(h, Preparing(w.retries)), s.marks, s.sends));
    OneMore(first, step, 2, At(s, i, rows, Held(h, Releasing(w.retries, Failed)), s.marks, s.sends));
    OneMore(first, step, 3, At(s, i, rows.(claim := Some(ClaimRow(None, g, now))), Done(Failed), s.marks, s.sends));
  }

  lemma ClaimsFree(s: System, i: nat, now: int, id: int)
    requires i < |s.workers| && s.workers[i].pc == Preflight
    requires s.rows.run.None? && s.rows.cancelledAt.None? && !Claimed(s.rows, now)
    ensures var w, g := s.workers[i], s.rows.ClaimGeneration() + 1;
            Run(s, seq(3, _ => Smooth(i, now, id)))
            == At(s, i, s.rows.(claim := Some(ClaimRow(Some(w.owner), g, now + w.lease))), Held(Handle(w.owner, g), FreshResult), s.marks, s.sends)
  {
    AtItself(s, i);
    ClaimedExactly(s.rows, now);
    GetsTheClaim(s, i, s.rows, now, id);
  }

  /** A plan in doubt: the call fails, and the claim it took is given back. */
  lemma CrossedFails(s: System, i: nat, now: int, id: int)
    requires WellFormed(s.rows) && i < |s.workers| && s.workers[i].pc == Preflight && s.workers[i].lease > 0
    requires s.rows.run.None? && s.rows.cancelledAt.None? && !Claimed(s.rows, now) && s.rows.Crossed()
    ensures Run(s, seq(11, _ => Smooth(i, now, id))) == At(s, i, Visited(s.rows, now), Done(Failed), s.marks, s.sends)
  {
    var w := s.workers[i];
    var claimed := s.rows.(claim := Some(ClaimRow(Some(w.owner), s.rows.ClaimGeneration() + 1, now + w.lease)));
    var end := At(s, i, Visited(s.rows, now), Done(Failed), s.marks, s.sends);
    ClaimsFree(s, i, now, id);
    PrepareIsInDoubt(s, i, claimed, now, id);
    RunOfSame(s, Smooth(i, now, id), 3, 4);
    DoneAfterAll(s, i, 7, 11, now, id, end);
  }

  /** What an undisturbed call makes of the rows it finds. */
  ghost function Expected(rows: Rows, now: int, id: int): Verdict {
    if rows.run.Some? then Returned(rows.run.value)
    else if rows.cancelledAt.Some? || Claimed(rows, now) then Blocked
    else if rows.Crossed() then Failed
    else Returned(RunRow(id, rows.ClaimGeneration() + 1))
  }

  lemma {:induction false} VerdictOfRows(s: System, i: nat, now: int, id: int)
    requires WellFormed(s.rows) && i < |s.workers| && s.workers[i].pc == Preflight && s.workers[i].lease > 0
    ensures var t := Run(s, seq(11, _ => Smooth(i, now, id)));
            && |t.workers| == |s.workers|
            && t.workers[i].pc == Done(Expected(s.rows, now, id))
            && (Expected(s.rows, now, id) == Blocked || s.rows.run.Some? ==> t.rows == s.rows)
            && (t.rows != s.rows ==> !Claimed(t.rows, now))
            && (Expected(s.rows, now, id) == Failed ==> t.rows == Visited(s.rows, now))
            && (t.sends == s.sends <==> s.rows.run.Some? || !Expected(s.rows, now, id).Returned?)
  {
    if s.rows.run.Some? {
      FinishedIsReturned(s, i, now, id);
    } else if s.rows.cancelledAt.Some? {
      CancelledIsBlocked(s, i, now, id);
    } else if Claimed(s.rows, now) {
      ClaimedIsBlocked(s, i, now, id);
    } else if s.rows.Crossed() {
      CrossedFails(s, i, now, id);
      ClaimedExactly(Visited(s.rows, now), now);
    } else {
      ClaimedExactly(s.rows, now);
      FreshWorkerFinishes(s, i, now, id);
      ClaimedExactly(Run(s, seq(11, _ => Smooth(i, now, id))).rows, now);
    }
  }

  /**
   On every reachable state the verdict of an undisturbed call is decided by the rows: the
   result if there is one, blocked if the plan is cancelled or claimed, failed if it is in
   doubt, and otherwise the result it writes. Only the last sends; all give their claim back.
   */
  lemma {:induction false} UndisturbedVerdict(init: System, steps: seq<Step>, i: nat, now: int, id: int)
    requires Initial(init)
    requires var s := Run(init, steps); i < |s.workers| && s.workers[i].pc == Preflight && s.workers[i].lease > 0
    ensures var s, t := Run(init, steps), Run(init, steps + seq(11, _ => Smooth(i, now, id)));
            && |t.workers| == |s.workers|
            && t.workers[i].pc == Done(Expected(s.rows, now, id))
            && (Expected(s.rows, now, id) == Blocked || s.rows.run.Some? ==> t.rows == s.rows)
            && (t.rows != s.rows ==> !Claimed(t.rows, now))
            && (Expected(s.rows, now, id) == Failed ==> t.rows == Visited(s.rows, now))
            && (t.sends == s.sends <==> s.rows.run.Some? || !Expected(s.rows, now, id).Returned?)
  {
    ReachableIsWellFormed(init, steps);
    RunSplits(init, steps, seq(11, _ => Smooth(i, now, id)));
    VerdictOfRows(Run(init, steps), i, now, id);
  }

  // ----- a finished plan, from wherever a worker is before its attempt

  predicate BeforeAttempt(pc: Pc) {
    pc.Preflight? || pc.PreflightCancel? || pc.Acquiring? || pc.ClaimUnavailable? || (pc.Held? && pc.stage.FreshResult?)
  }

  predicate Finding(pc: Pc, run: RunRow) {
    BeforeAttempt(pc) || pc == Done(Returned(run)) || (pc.Held? && pc.stage.Releasing? && pc.stage.verdict == Returned(run))
  }

  function Stops(pc: Pc): nat {
    match pc
    case Preflight => 1
    case PreflightCancel(_) => 4
    case Acquiring(_) => 3
    case ClaimUnavailable => 1
    case Held(_, FreshResult) => 2
    case Held(_, Releasing(_, _)) => 1
    case _ => 0
  }

  lemma FindsTheResult(s: System, i: nat, now: int, id: int, run: RunRow)
    requires i < |s.workers| && s.rows.run == Some(run) && s.rows.cancelledAt.None? && Finding(s.workers[i].pc, run)
    ensures var t := Next(s, Smooth(i, now, id));
            && i < |t.workers| && t.rows.run == Some(run) && t.rows.cancelledAt.None? && Finding(t.workers[i].pc, run)
            && (Stops(s.workers[i].pc) > 0 ==> Stops(t.workers[i].pc) < Stops(s.workers[i].pc))
            && (Stops(s.workers[i].pc) == 0 ==> t.workers[i].pc == s.workers[i].pc)
            && t.sends == s.sends && t.marks == s.marks && t.rows.progress == s.rows.progress
  {}

  lemma {:induction false} FindsTheResultInTime(s: System, i: nat, k: nat, now: int, id: int, run: RunRow)
    requires i < |s.workers| && s.rows.run == Some(run) && s.rows.cancelledAt.None? && Finding(s.workers[i].pc, run)
    requires Stops(s.workers[i].pc) <= k
    ensures var t := Run(s, seq(k, _ => Smooth(i, now, id)));
            i < |t.workers| && t.workers[i].pc == Done(Returned(run))
            && t.rows.run == Some(run) && t.sends == s.sends && t.marks == s.marks && t.rows.progress == s.rows.progress
    decreases k
  {
    if k > 0 {
      var step := Smooth(i, now, id);
      assert seq(k, _ => step)[0] == step && seq(k, _ => step)[1..] == seq(k - 1, _ => step);
      FindsTheResult(s, i, now, id, run);
      FindsTheResultInTime(Next(s, step), i, k - 1, now, id, run);
    }
  }

  /**
   Once a plan has its result, a worker that has not begun an attempt, wherever it stands,
   returns that result after four smooth steps and neither marks nor sends.
   */
  lemma {:induction false} FinishedPlanReturnsItsResult(init: System, steps: seq<Step>, i: nat, now: int, id: int)
    requires Initial(init)
    requires var s := Run(init, steps); i < |s.workers| && s.rows.run.Some? && BeforeAttempt(s.workers[i].pc)
    ensures var s, t := Run(init, steps), Run(init, steps + seq(4, _ => Smooth(i, now, id)));
            && i < |t.workers| && t.workers[i].pc == Done(Returned(s.rows.run.value))
            && t.rows.run == s.rows.run && t.sends == s.sends && t.marks == s.marks && t.rows.progress == s.rows.progress
  {
    var s := Run(init, steps);
    NeverBoth(init, steps);
    RunSplits(init, steps, seq(4, _ => Smooth(i, now, id)));
    FindsTheResultInTime(s, i, 4, now, id, s.rows.run.value);
  }

  lemma {:induction false} NeverBoth(init: System, steps: seq<Step>)
    requires Initial(init)
    ensures Run(init, steps).rows.run.Some? ==> Run(init, steps).rows.cancelledAt.None?
    ensures WellFormed(Run(init, steps).rows)
  {
    RunKeepsInv(init, init.rows.run, steps);
  }

  // ----- cancellation

  /**
   A request that reaches a plan before its boundary and its result cancels it, and every
   later request, whatever happened in between, reports the time of the first.
   */
  lemma {:induction false} CancellationTakes(init: System, first: seq<Step>, rest: seq<Step>, at: int, now: int)
    requires Initial(init)
    requires var rows := Run(init, first).rows; !rows.Crossed() && rows.run.None? && rows.cancelledAt.None?
    ensures var t := Run(init, first + [RequestCancel(at, Commits)] + rest);
            t.rows.cancelledAt == Some(at) && CancelTxn(t.rows, now) == (t.rows, CancelRecorded(at))
  {
    var s := Run(init, first);
    var request := RequestCancel(at, Commits);
    RunSnoc(init, first, request);
    CancelledExactly(s.rows, at);
    CancelledNeverRuns(init, first + [request], rest);
  }

  // ----- a cancelled plan, from wherever a worker is before its mark

  /** Before its mark, or already blocked. A research worker is past the point where a cancellation blocks it once it prepares. */
  predicate Blockable(w: Worker) {
    match w.pc
    case Held(_, Releasing(_, verdict)) => verdict == Blocked
    case Held(_, FreshResult) => true
    case Held(_, FreshCancel(_)) => true
    case Held(_, stage) => !w.research && (stage.Preparing? || stage.Authorizing? || stage.Marking?)
    case Done(verdict) => verdict == Blocked
    case Crashed => false
    case _ => true
  }

  /** What a cancelled plan looks like. */
  predicate IsCancelled(rows: Rows) {
    WellFormed(rows) && rows.cancelledAt.Some? && !rows.Crossed() && rows.run == None
  }

  lemma CancelledBlocksUnclaimed(s: System, i: nat, now: int, id: int)
    requires i < |s.workers| && IsCancelled(s.rows) && Blockable(s.workers[i]) && !s.workers[i].pc.Held?
    ensures BlocksOneStep(s, i, now, id)
  {}

  lemma CancelledBlocksPrepared(s: System, i: nat, now: int, id: int)
    requires i < |s.workers| && IsCancelled(s.rows) && Blockable(s.workers[i])
    requires s.workers[i].pc.Held? && (s.workers[i].pc.stage.Preparing? || s.workers[i].pc.stage.Authorizing? || s.workers[i].pc.stage.Marking?)
    ensures BlocksOneStep(s, i, now, id)
  {}

  lemma CancelledBlocksFresh(s: System, i: nat, now: int, id: int)
    requires i < |s.workers| && IsCancelled(s.rows) && Blockable(s.workers[i])
    requires s.workers[i].pc.Held? && !s.workers[i].pc.stage.Preparing? && !s.workers[i].pc.stage.Authorizing? && !s.workers[i].pc.stage.Marking?
    ensures BlocksOneStep(s, i, now, id)
  {}

  /** The worker stays blockable, the plan cancelled, nothing is marked or sent, and the worker gets ahead. */
  predicate BlocksOneStep(s: System, i: nat, now: int, id: int)
    requires i < |s.workers|
  {
    var t := Next(s, Smooth(i, now, id));
    && |t.workers| == |s.workers| && IsCancelled(t.rows) && Blockable(t.workers[i])
    && t.marks == s.marks && t.sends == s.sends
    && (Ahead(s.workers[i].pc) > 0 ==> Ahead(t.workers[i].pc) < Ahead(s.workers[i].pc))
    && (Ahead(s.workers[i].pc) == 0 ==> t.workers[i].pc == s.workers[i].pc)
  }

  lemma {:induction false} BlocksInTime(s: System, i: nat, k: nat, now: int, id: int)
    requires i < |s.workers| && IsCancelled(s.rows) && Blockable(s.workers[i]) && Ahead(s.workers[i].pc) <= k
    ensures var t := Run(s, seq(k, _ => Smooth(i, now, id)));
            i < |t.workers| && t.workers[i].pc == Done(Blocked) && t.marks == s.marks && t.sends == s.sends && t.rows.run == None
    decreases k
  {
    if k > 0 {
      var step := Smooth(i, now, id);
      assert seq(k, _ => step)[0] == step && seq(k, _ => step)[1..] == seq(k - 1, _ => step);
      if !s.workers[i].pc.Held? {
        CancelledBlocksUnclaimed(s, i, now, id);
      } else if s.workers[i].pc.stage.Preparing? || s.workers[i].pc.stage.Authorizing? || s.workers[i].pc.stage.Marking? {
        CancelledBlocksPrepared(s, i, now, id);
      } else {
        CancelledBlocksFresh(s, i, now, id);
      }
      BlocksInTime(Next(s, step), i, k - 1, now, id);
    }
  }

  /**
   Once a plan is cancelled, a worker that has not marked ends blocked and sends nothing,
   wherever it stands; a research worker does so up to its own look at the cancellation.
   */
  lemma {:induction false} CancelledPlanBlocks(init: System, steps: seq<Step>, i: nat, now: int, id: int)
    requires Initial(init)
    requires var s := Run(init, steps); i < |s.workers| && s.rows.cancelledAt.Some? && Blockable(s.workers[i])
    ensures var s, t := Run(init, steps), Run(init, steps + seq(12, _ => Smooth(i, now, id)));
            i < |t.workers| && t.workers[i].pc == Done(Blocked) && t.marks == s.marks && t.sends == s.sends && t.rows.run == None
  {
    CancelledNeverRuns(init, steps, []);
    assert steps + [] == steps;
    ReachableIsWellFormed(init, steps);
    RunSplits(init, steps, seq(12, _ => Smooth(i, now, id)));
    BlocksInTime(Run(init, steps), i, 12, now, id);
  }

  // ----- single steps

  /** The same place with fewer attempts left. */
  function WithLeft(pc: Pc, left: nat): Pc {
    match pc
    case PreflightCancel(_) => PreflightCancel(left)
    case Acquiring(_) => Acquiring(left)
    case Held(h, FreshCancel(_)) => Held(h, FreshCancel(left))
    case Held(h, Preparing(_)) => Held(h, Preparing(left))
    case Held(h, Authorizing(_)) => Held(h, Authorizing(left))
    case Held(h, Marking(_)) => Held(h, Marking(left))
    case Held(h, Releasing(_, verdict)) => Held(h, Releasing(left, verdict))
    case _ => pc
  }

  /** A failed attempt at a retried call changes no row and is repeated as long as attempts are left. */
  lemma FailuresAreRetried(s: System, i: nat, now: int, id: int)
    requires i < |s.workers| && Left(s.workers[i].pc) > 1
    ensures Next(s, Work(i, now, Fails, true, id)) == At(s, i, s.rows, WithLeft(s.workers[i].pc, Left(s.workers[i].pc) - 1), s.marks, s.sends)
  {}

  /** With the last attempt the call gives up: blocked before its mark, failed as a research worker at it, with its verdict at the release. */
  lemma LastFailureGivesUp(s: System, i: nat, now: int, id: int)
    requires i < |s.workers| && Left(s.workers[i].pc) == 1
    ensures var w, t := s.workers[i], Next(s, Work(i, now, Fails, true, id));
            && |t.workers| == |s.workers| && t.rows == s.rows && t.marks == s.marks && t.sends == s.sends
            && match w.pc
               case Held(h, Releasing(_, verdict)) => t.workers[i].pc == Done(verdict)
               case Held(h, Marking(_)) => t.workers[i].pc == if w.research then Held(h, Finishing(false)) else Held(h, Releasing(w.retries, Blocked))
               case Held(h, _) => t.workers[i].pc == Held(h, Releasing(w.retries, Blocked))
               case _ => t.workers[i].pc == Done(Blocked)
  {}

  /** Before it prepares an attempt a worker is blocked, not failed, by anything it consults. */
  lemma DisagreementBlocks(s: System, i: nat, now: int, id: int)
    requires i < |s.workers|
    ensures var w, t := s.workers[i], Next(s, Work(i, now, Commits, false, id));
            && (w.pc.Preflight? || w.pc.PreflightCancel? || w.pc.ClaimUnavailable? ==> t.workers[i].pc == Done(Blocked) && t.rows == s.rows)
            && (w.pc.Held? && w.pc.stage.FreshResult? ==> t.workers[i].pc == Held(w.pc.h, Releasing(w.retries, Blocked)) && t.rows == s.rows)
  {}

  /** A worker that crashed never acts again; one that is done cannot crash. */
  lemma {:induction false} CrashedForGood(s: System, i: nat, steps: seq<Step>)
    requires i < |s.workers|
    ensures var t := Run(Next(s, Crash(i)), steps);
            i < |t.workers| && t.workers[i].pc == if s.workers[i].pc.Done? then s.workers[i].pc else Crashed
  {
    EndsAsItIs(Next(s, Crash(i)), i, steps);
  }

  lemma {:induction false} EndsAsItIs(s: System, i: nat, steps: seq<Step>)
    requires i < |s.workers| && Ended(s.workers[i].pc)
    ensures i < |Run(s, steps).workers| && Run(s, steps).workers[i].pc == s.workers[i].pc
    decreases |steps|
  {
    if steps != [] {
      if steps[0].Work? && steps[0].worker == i {
        var Work(_, now, fate, go, id) := steps[0];
        EndedStaysEnded(s, i, now, fate, go, id);
      } else {
        OthersLeaveIt(s, steps[0], i);
      }
      EndsAsItIs(Next(s, steps[0]), i, steps[1..]);
    }
  }

  /** A worker goes on to its mark exactly if its claim is renewed and everything it consults agrees. */
  lemma AuthorizedExactly(s: System, i: nat, now: int, go: bool, id: int)
    requires i < |s.workers| && s.workers[i].pc.Held? && s.workers[i].pc.stage.Authorizing?
    ensures var pc := Next(s, Work(i, now, Commits, go, id)).workers[i].pc;
            var h := s.workers[i].pc.h;
            && pc.Held? && pc.h == h
            && (pc.stage.Marking? <==> go && Current(s.rows, h, now))
            && (!pc.stage.Marking? ==> pc.stage.Releasing? && pc.stage.verdict == Blocked)
  {}

  /** A refused mark blocks a plain worker, and leaves a research worker without the record it needs. */
  lemma MarkedExactly(s: System, i: nat, now: int, go: bool, id: int)
    requires i < |s.workers| && s.workers[i].pc.Held? && s.workers[i].pc.stage.Marking?
    ensures var w, t := s.workers[i], Next(s, Work(i, now, Commits, go, id));
            var h, pc := w.pc.h, t.workers[i].pc;
            && pc.Held? && pc.h == h
            && (pc.stage.Boundary? <==> (go || !w.research) && MarkTxn(s.rows, h, now).1 == Started)
            && t.marks == (if pc.stage.Boundary? then s.marks + [h.generation] else s.marks)
            && (!pc.stage.Boundary? ==>
                  if w.research then pc.stage == Finishing(false) else pc.stage.Releasing? && pc.stage.verdict == Blocked)
  {}

  /** A request leaves exactly if the gateway sends it, and from a research worker only under a current claim on an uncancelled plan. */
  lemma SentExactly(s: System, i: nat, now: int, fate: Fate, go: bool, id: int)
    requires i < |s.workers| && s.workers[i].pc.Held? && s.workers[i].pc.stage.Boundary?
    ensures var w, t := s.workers[i], Next(s, Work(i, now, fate, go, id));
            var sent := go && (w.research ==> Current(s.rows, w.pc.h, now) && s.rows.cancelledAt == None);
            && t.sends == (if sent then s.sends + [w.pc.h.generation] else s.sends)
            && t.rows == s.rows && t.marks == s.marks
            && t.workers[i].pc == Held(w.pc.h, Finishing(!w.research || (sent && !fate.Fails?)))
  {}

  /** What the result transaction makes of the call: its own result, the one that is there, or a failure. */
  lemma FinishedExactly(s: System, i: nat, now: int, go: bool, id: int)
    requires i < |s.workers| && s.workers[i].pc.Held? && s.workers[i].pc.stage.Finishing?
    ensures var w, t := s.workers[i], Next(s, Work(i, now, Commits, go, id));
            var h := w.pc.h;
            var writes := Current(s.rows, h, now) && s.rows.run == None && w.pc.stage.provenance;
            && t.workers[i].pc == Held(h, Releasing(w.retries,
                 if writes then Returned(RunRow(id, h.generation))
                 else if go && Current(s.rows, h, now) && s.rows.run.Some? then Returned(s.rows.run.value)
                 else Failed))
            && t.rows == if writes then s.rows.(run := Some(RunRow(id, h.generation))) else s.rows
  {}

  /** A claim is given back by any of the attempts that commits, before they run out, and the call ends with its verdict either way. */
  lemma {:induction false} ReleaseIsRetried(s: System, i: nat, steps: seq<Step>, last: Step)
    requires i < |s.workers| && s.workers[i].pc.Held? && s.workers[i].pc.stage.Releasing?
    requires |steps| < s.workers[i].pc.stage.left
    requires forall k :: 0 <= k < |steps| ==> steps[k].Work? && steps[k].worker == i && steps[k].fate == Fails
    requires last.Work? && last.worker == i && last.fate == Commits
    ensures var h, verdict := s.workers[i].pc.h, s.workers[i].pc.stage.verdict;
            var t := Run(s, steps + [last]);
            && i < |t.workers| && t.workers[i].pc == Done(verdict)
            && t.rows == ReleaseTxn(s.rows, h, last.now).0
    decreases |steps|
  {
    var all := steps + [last];
    if steps == [] {
      assert all[1..] == [] && Run(Next(s, last), []) == Next(s, last);
    } else {
      assert all[0] == steps[0] && all[1..] == steps[1..] + [last];
      ReleaseIsRetried(Next(s, steps[0]), i, steps[1..], last);
    }
  }
}
