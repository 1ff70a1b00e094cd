/**
 Any number of workers executing one plan, interleaved one transaction at a time
 with each other, with crashes, with cancellation requests and with an arbitrary
 clock. A worker is the program of PlanExecutionService._execute; a research
 worker takes the typed dispatch path, which marks the boundary from inside the
 gateway and must commit an attempt record together with its send.
 */
module PlanWorkers {
  import opened Wrappers
  import opened PlanRows
  import opened PlanServices

  datatype Verdict = Returned(run: RunRow) | Blocked | Failed

  /** Where a worker that holds a claim is. A number counts the attempts left at a retried call. */
  datatype Stage =
    | FreshResult
    | FreshCancel(left: nat)
    | Preparing(left: nat)
    | Authorizing(left: nat)
    | Marking(left: nat)
    | Boundary
    | Finishing(provenance: bool)
    | Releasing(left: nat, verdict: Verdict)

  datatype Pc =
    | Preflight
    | PreflightCancel(left: nat)
    | Acquiring(left: nat)
    | ClaimUnavailable
    | Held(h: Handle, stage: Stage)
    | Done(verdict: Verdict)
    | Crashed

  datatype Worker = Worker(owner: string, research: bool, lease: int, retries: nat, pc: Pc)

  /** `marks` and `sends` remember the generations that marked the boundary and that sent. */
  datatype System = System(rows: Rows, workers: seq<Worker>, marks: seq<int>, sends: seq<int>)

  /**
   One step. `go` stands for everything a worker consults besides the four rows
   (policy, authorization, credentials, lookups, the network); `id` is the key the
   database gives a new result.
   */
  datatype Step =
    | Work(worker: nat, now: int, fate: Fate, go: bool, id: int)
    | Crash(worker: nat)
    | RequestCancel(now: int, fate: Fate)

  function Give(w: Worker, h: Handle, verdict: Verdict): Pc {
    Held(h, Releasing(w.retries, verdict))
  }

  function WorkUnclaimed(s: System, w: Worker, now: int, fate: Fate, go: bool): (Rows, Pc) {
    match w.pc
    case Preflight =>
      (s.rows,
       if !go then Done(Blocked)
       else if s.rows.run.Some? then Done(Returned(s.rows.run.value))
       else PreflightCancel(w.retries))
    case PreflightCancel(left) =>
      (s.rows,
       if !fate.Commits? then (if left > 1 then PreflightCancel(left - 1) else Done(Blocked))
       else if s.rows.cancelledAt.Some? || !go then Done(Blocked)
       else Acquiring(w.retries))
    case Acquiring(left) =>
      var (rows: Rows, found: Option<Option<Handle>>) := TryOnce(s.rows, now, fate, AcquireBody(w.owner, w.lease));
      (rows,
       match found
       case None => if left > 1 then Acquiring(left - 1) else Done(Blocked)
       case Some(None) => ClaimUnavailable
       case Some(Some(h)) => Held(h, FreshResult))
    case ClaimUnavailable =>
      (s.rows, if go && s.rows.run.Some? then Done(Returned(s.rows.run.value)) else Done(Blocked))
    case _ => (s.rows, w.pc)
  }

  function WorkClaimed(s: System, w: Worker, h: Handle, stage: Stage, now: int, fate: Fate, go: bool): (Rows, Pc)
    requires !stage.Marking? && !stage.Boundary? && !stage.Finishing?
  {
    match stage
    case FreshResult =>
      (s.rows,
       if !go then Give(w, h, Blocked)
       else if s.rows.run.Some? then Give(w, h, Returned(s.rows.run.value))
       else Held(h, FreshCancel(w.retries)))
    case FreshCancel(left) =>
      (s.rows,
       if !fate.Commits? then (if left > 1 then Held(h, FreshCancel(left - 1)) else Give(w, h, Blocked))
       else if s.rows.cancelledAt.Some? then Give(w, h, Blocked)
       else Held(h, Preparing(w.retries)))
    case Preparing(left) =>
      var (rows: Rows, prepared: Option<PrepareOutcome>) := TryOnce(s.rows, now, fate, PrepareBody(h));
      (rows,
       match prepared
       case None => if left > 1 then Held(h, Preparing(left - 1)) else Give(w, h, Blocked)
       case Some(Prepared) => Held(h, Authorizing(w.retries))
       case Some(PrepareInDoubt) => Give(w, h, Failed)
       case Some(PrepareLost) => Give(w, h, Blocked))
    case Authorizing(left) =>
      var (rows, renewed) := TryOnce(s.rows, now, fate, RenewBody(h, w.lease));
      (rows,
       match renewed
       case None => if left > 1 then Held(h, Authorizing(left - 1)) else Give(w, h, Blocked)
       case Some(ok) => if ok && go then Held(h, Marking(w.retries)) else Give(w, h, Blocked))
    case Releasing(left, verdict) =>
      var (rows, released) := TryOnce(s.rows, now, fate, ReleaseBody(h));
      (rows,
       if released.Some? then Done(verdict)
       else if left > 1 then Held(h, Releasing(left - 1, verdict)) else Done(verdict))
  }

  /** A refused mark blocks a plain worker; inside the gateway it surfaces as a network failure. */
  function RefusedMark(w: Worker, h: Handle): Pc {
    if w.research then Held(h, Finishing(false)) else Give(w, h, Blocked)
  }

  function MarkBoundary(s: System, w: Worker, h: Handle, left: nat, now: int, fate: Fate, go: bool): (Rows, Pc, seq<int>) {
    if w.research && !go then
      (s.rows, Held(h, Finishing(false)), s.marks)
    else
      var (rows: Rows, mark: Option<MarkOutcome>) := TryOnce(s.rows, now, fate, MarkBody(h));
      if mark == Some(Started) then
        (rows, Held(h, Boundary), s.marks + [h.generation])
      else if mark.Some? then
        (rows, RefusedMark(w, h), s.marks)
      else
        (rows, if left > 1 then Held(h, Marking(left - 1)) else RefusedMark(w, h), s.marks)
  }

  /**
   Past the mark. A plain worker calls the gateway, which may or may not put the
   request on the wire. A research worker sends only inside a transaction that
   finds its claim current and the plan not cancelled, and its provenance is the
   attempt row that transaction commits.
   */
  function CrossBoundary(s: System, w: Worker, h: Handle, now: int, fate: Fate, go: bool): (Pc, seq<int>) {
    if !w.research then
      (Held(h, Finishing(true)), if go then s.sends + [h.generation] else s.sends)
    else if go && Current(s.rows, h, now) && s.rows.cancelledAt.None? then
      (Held(h, Finishing(!fate.Fails?)), s.sends + [h.generation])
    else
      (Held(h, Finishing(false)), s.sends)
  }

  function FinishRun(s: System, w: Worker, h: Handle, provenance: bool, now: int, fate: Fate, go: bool, id: int): (Rows, Pc) {
    var (rows, write) := WriteTxn(s.rows, h, id, provenance, now);
    match fate
    case Fails => (s.rows, Give(w, h, Failed))
    case CommitsUnreported => (rows, Give(w, h, Failed))
    case Commits =>
      (rows,
       match write
       case Written(run) => Give(w, h, Returned(run))
       case WriteConflict(run) => Give(w, h, if go then Returned(run) else Failed)
       case _ => Give(w, h, Failed))
  }

  function DoWork(s: System, i: nat, now: int, fate: Fate, go: bool, id: int): System
    requires i < |s.workers|
  {
    var w := s.workers[i];
    if !w.pc.Held? then
      var (rows, pc) := WorkUnclaimed(s, w, now, fate, go);
      s.(rows := rows, workers := s.workers[i := w.(pc := pc)])
    else
      var h := w.pc.h;
      match w.pc.stage
      case Marking(left) =>
        var (rows, pc, marks) := MarkBoundary(s, w, h, left, now, fate, go);
        s.(rows := rows, workers := s.workers[i := w.(pc := pc)], marks := marks)
      case Boundary =>
        var (pc, sends) := CrossBoundary(s, w, h, now, fate, go);
        s.(workers := s.workers[i := w.(pc := pc)], sends := sends)
      case Finishing(provenance) =>
        var (rows, pc) := FinishRun(s, w, h, provenance, now, fate, go, id);
        s.(rows := rows, workers := s.workers[i := w.(pc := pc)])
      case _ =>
        var (rows, pc) := WorkClaimed(s, w, h, w.pc.stage, now, fate, go);
        s.(rows := rows, workers := s.workers[i := w.(pc := pc)])
  }

  /** A step that names no worker is no step; a finished worker stays finished. */
  function Next(s: System, step: Step): System {
    match step
    case Work(i, now, fate, go, id) => if i < |s.workers| then DoWork(s, i, now, fate, go, id) else s
    case Crash(i) => if i < |s.workers| && !s.workers[i].pc.Done? then s.(workers := s.workers[i := s.workers[i].(pc := Crashed)]) else s
    case RequestCancel(now, fate) => s.(rows := TryOnce(s.rows, now, fate, CancelBody()).0)
  }

  function Run(s: System, steps: seq<Step>): System
    decreases |steps|
  {
    if steps == [] then s else Run(Next(s, steps[0]), steps[1..])
  }

  /**
   Where a plan may start: untouched, finished before progress was recorded (a
   result and perhaps a claim), or claimed then and seeded as in doubt.
   */
  predicate Initial(s: System) {
    && (forall i :: 0 <= i < |s.workers| ==> s.workers[i].pc == Preflight)
    && s.marks == [] && s.sends == []
    && s.rows.cancelledAt == None
    && WellFormed(s.rows)
    && (s.rows.run.Some? ==> s.rows.progress == None)
    && (s.rows.progress.Some? ==> s.rows.progress.value.phase == Phase.InDoubt)
    && (s.rows.claim.Some? ==> s.rows.run.Some? || s.rows.progress.Some?)
  }

  // ----- the invariant

  predicate PastPrepare(stage: Stage) {
    stage.Authorizing? || stage.Marking? || stage.Boundary? || stage.Finishing?
  }

  predicate HolderInv(s: System, legacy: Option<RunRow>, h: Handle, stage: Stage) {
    && 0 < h.generation <= s.rows.ClaimGeneration()
    && (PastPrepare(stage) && h.generation == s.rows.ClaimGeneration() ==>
          s.rows.progress.Some? && s.rows.progress.value.generation == h.generation)
    && (stage.Boundary? ==> s.marks == [h.generation] && s.sends == [])
    && (stage.Finishing? && stage.provenance ==> s.marks == [h.generation])
    && (stage.Releasing? && stage.verdict.Returned? ==> s.rows.run == Some(stage.verdict.run))
    && (legacy.Some? ==> stage.FreshResult? || stage.Releasing?)
    && (!stage.Releasing? && s.rows.run.Some? && legacy.None? ==> s.rows.run.value.generation != h.generation)
  }

  predicate WorkerInv(s: System, legacy: Option<RunRow>, pc: Pc) {
    && (pc.Done? && pc.verdict.Returned? ==> s.rows.run == Some(pc.verdict.run))
    && (pc.Held? ==> HolderInv(s, legacy, pc.h, pc.stage))
  }

  /** Each acquisition has its own generation, so no two workers hold the same one. */
  predicate DistinctHolders(workers: seq<Worker>) {
    forall i, j :: 0 <= i < j < |workers| && workers[i].pc.Held? && workers[j].pc.Held? ==>
      workers[i].pc.h.generation != workers[j].pc.h.generation
  }

  predicate SharedInv(s: System, legacy: Option<RunRow>) {
    && WellFormed(s.rows)
    && (s.marks == [] || (|s.marks| == 1 && s.rows.progress == Some(ProgressRow(s.marks[0], NetworkStarted))))
    && (s.sends == [] || s.sends == s.marks)
    && (legacy.Some? ==> s.rows.run == legacy && s.marks == [] && s.rows.cancelledAt == None)
    && (legacy.None? && s.rows.run.Some? ==> s.marks == [s.rows.run.value.generation])
  }

  predicate Inv(s: System, legacy: Option<RunRow>) {
    && SharedInv(s, legacy)
    && (forall i :: 0 <= i < |s.workers| ==> WorkerInv(s, legacy, s.workers[i].pc))
    && DistinctHolders(s.workers)
  }

  /** What a step does to the shared part, as far as the other workers can tell. */
  predicate Shifts(s: System, t: System, h: Option<Handle>) {
    && Advances(s.rows, t.rows)
    && (s.rows.run.Some? ==> t.rows.run == s.rows.run)
    && (s.rows.ClaimGeneration() == t.rows.ClaimGeneration() && s.rows.progress.Some? ==>
          t.rows.progress.Some?
          && (t.rows.progress.value.generation == s.rows.progress.value.generation
              || (h.Some? && t.rows.progress.value.generation == h.value.generation == t.rows.ClaimGeneration())))
    && (t.marks == s.marks || h.Some?)
  }

  /** A step of another holder cannot disturb what a holder relies on. */
  lemma OthersUndisturbed(s: System, t: System, legacy: Option<RunRow>, actor: Option<Handle>, pc: Pc)
    requires SharedInv(s, legacy) && SharedInv(t, legacy)
    requires Shifts(s, t, actor)
    requires WorkerInv(s, legacy, pc)
    requires pc.Held? && actor.Some? ==> actor.value.generation != pc.h.generation
    requires s.marks != [] ==> t.marks == s.marks
    requires t.sends == s.sends || (actor.Some? && t.sends == [actor.value.generation])
    requires t.rows.run == s.rows.run || (actor.Some? && t.rows.run.Some? && t.rows.run.value.generation == actor.value.generation)
    ensures WorkerInv(t, legacy, pc)
  {}

  /** The handle a worker acts with in this step: the one it holds, or the one it acquires. */
  function Actor(s: System, t: System, i: nat): Option<Handle>
    requires i < |s.workers| && |t.workers| == |s.workers|
  {
    if s.workers[i].pc.Held? then Some(s.workers[i].pc.h)
    else if t.workers[i].pc.Held? then Some(t.workers[i].pc.h)
    else None
  }

  /** What one worker's step guarantees about itself and about the shared part. */
  predicate StepFacts(s: System, t: System, legacy: Option<RunRow>, i: nat) {
    && i < |s.workers| && |t.workers| == |s.workers|
    && (forall j :: 0 <= j < |s.workers| && j != i ==> t.workers[j] == s.workers[j])
    && SharedInv(t, legacy)
    && WorkerInv(t, legacy, t.workers[i].pc)
    && var actor := Actor(s, t, i);
       && Shifts(s, t, actor)
       && (t.workers[i].pc.Held? ==> actor == Some(t.workers[i].pc.h))
       && (!s.workers[i].pc.Held? && actor.Some? ==> actor.value.generation > s.rows.ClaimGeneration())
       && (s.marks != [] ==> t.marks == s.marks)
       && (t.sends == s.sends || (actor.Some? && t.sends == [actor.value.generation]))
       && (t.rows.run == s.rows.run
           || (actor.Some? && t.rows.run.Some? && t.rows.run.value.generation == actor.value.generation))
  }

  lemma PreflightStep(s: System, legacy: Option<RunRow>, i: nat, now: int, fate: Fate, go: bool, id: int)
    requires Inv(s, legacy) && i < |s.workers| && (s.workers[i].pc.Preflight? || s.workers[i].pc.PreflightCancel?)
    ensures StepFacts(s, DoWork(s, i, now, fate, go, id), legacy, i)
  {}

  lemma AcquireTakes(s: System, legacy: Option<RunRow>, i: nat, now: int, fate: Fate, go: bool, id: int)
    requires Inv(s, legacy) && i < |s.workers| && s.workers[i].pc.Acquiring?
    requires AcquireTxn(s.rows, s.workers[i].owner, s.workers[i].lease, now).1.Some?
    ensures StepFacts(s, DoWork(s, i, now, fate, go, id), legacy, i)
  {}

  lemma AcquireIsRefused(s: System, legacy: Option<RunRow>, i: nat, now: int, fate: Fate, go: bool, id: int)
    requires Inv(s, legacy) && i < |s.workers| && s.workers[i].pc.Acquiring?
    requires AcquireTxn(s.rows, s.workers[i].owner, s.workers[i].lease, now).1.None?
    ensures StepFacts(s, DoWork(s, i, now, fate, go, id), legacy, i)
  {}

  lemma AcquireStep(s: System, legacy: Option<RunRow>, i: nat, now: int, fate: Fate, go: bool, id: int)
    requires Inv(s, legacy) && i < |s.workers| && s.workers[i].pc.Acquiring?
    ensures StepFacts(s, DoWork(s, i, now, fate, go, id), legacy, i)
  {
    if AcquireTxn(s.rows, s.workers[i].owner, s.workers[i].lease, now).1.Some? {
      AcquireTakes(s, legacy, i, now, fate, go, id);
    } else {
      AcquireIsRefused(s, legacy, i, now, fate, go, id);
    }
  }

  /** A worker that was refused the claim, or that is finished or crashed. */
  lemma OutsideStep(s: System, legacy: Option<RunRow>, i: nat, now: int, fate: Fate, go: bool, id: int)
    requires Inv(s, legacy) && i < |s.workers|
    requires s.workers[i].pc.ClaimUnavailable? || s.workers[i].pc.Done? || s.workers[i].pc.Crashed?
    ensures StepFacts(s, DoWork(s, i, now, fate, go, id), legacy, i)
  {}

  lemma UnclaimedStep(s: System, legacy: Option<RunRow>, i: nat, now: int, fate: Fate, go: bool, id: int)
    requires Inv(s, legacy) && i < |s.workers| && !s.workers[i].pc.Held?
    ensures StepFacts(s, DoWork(s, i, now, fate, go, id), legacy, i)
  {
    match s.workers[i].pc
    case Acquiring(_) => AcquireStep(s, legacy, i, now, fate, go, id);
    case Preflight => PreflightStep(s, legacy, i, now, fate, go, id);
    case PreflightCancel(_) => PreflightStep(s, legacy, i, now, fate, go, id);
    case _ => OutsideStep(s, legacy, i, now, fate, go, id);
  }

  lemma LookStep(s: System, legacy: Option<RunRow>, i: nat, now: int, fate: Fate, go: bool, id: int)
    requires Inv(s, legacy) && i < |s.workers| && s.workers[i].pc.Held?
    requires s.workers[i].pc.stage.FreshResult? || s.workers[i].pc.stage.FreshCancel?
    ensures StepFacts(s, DoWork(s, i, now, fate, go, id), legacy, i)
  {}

  lemma PrepareStep(s: System, legacy: Option<RunRow>, i: nat, now: int, fate: Fate, go: bool, id: int)
    requires Inv(s, legacy) && i < |s.workers| && s.workers[i].pc.Held?
    requires s.workers[i].pc.stage.Preparing?
    ensures StepFacts(s, DoWork(s, i, now, fate, go, id), legacy, i)
  {}

  lemma AuthorizeStep(s: System, legacy: Option<RunRow>, i: nat, now: int, fate: Fate, go: bool, id: int)
    requires Inv(s, legacy) && i < |s.workers| && s.workers[i].pc.Held?
    requires s.workers[i].pc.stage.Authorizing?
    ensures StepFacts(s, DoWork(s, i, now, fate, go, id), legacy, i)
  {}

  lemma ReleaseStep(s: System, legacy: Option<RunRow>, i: nat, now: int, fate: Fate, go: bool, id: int)
    requires Inv(s, legacy) && i < |s.workers| && s.workers[i].pc.Held?
    requires s.workers[i].pc.stage.Releasing?
    ensures StepFacts(s, DoWork(s, i, now, fate, go, id), legacy, i)
  {}

  lemma MarkStarts(s: System, legacy: Option<RunRow>, i: nat, now: int, fate: Fate, go: bool, id: int)
    requires Inv(s, legacy) && i < |s.workers| && s.workers[i].pc.Held? && s.workers[i].pc.stage.Marking?
    requires MarkTxn(s.rows, s.workers[i].pc.h, now).1 == Started
    ensures StepFacts(s, DoWork(s, i, now, fate, go, id), legacy, i)
  {}

  lemma MarkIsRefused(s: System, legacy: Option<RunRow>, i: nat, now: int, fate: Fate, go: bool, id: int)
    requires Inv(s, legacy) && i < |s.workers| && s.workers[i].pc.Held? && s.workers[i].pc.stage.Marking?
    requires MarkTxn(s.rows, s.workers[i].pc.h, now).1 != Started
    ensures StepFacts(s, DoWork(s, i, now, fate, go, id), legacy, i)
  {}

  lemma MarkStep(s: System, legacy: Option<RunRow>, i: nat, now: int, fate: Fate, go: bool, id: int)
    requires Inv(s, legacy) && i < |s.workers| && s.workers[i].pc.Held? && s.workers[i].pc.stage.Marking?
    ensures StepFacts(s, DoWork(s, i, now, fate, go, id), legacy, i)
  {
    if MarkTxn(s.rows, s.workers[i].pc.h, now).1 == Started {
      MarkStarts(s, legacy, i, now, fate, go, id);
    } else {
      MarkIsRefused(s, legacy, i, now, fate, go, id);
    }
  }

  lemma BoundaryStep(s: System, legacy: Option<RunRow>, i: nat, now: int, fate: Fate, go: bool, id: int)
    requires Inv(s, legacy) && i < |s.workers| && s.workers[i].pc.Held? && s.workers[i].pc.stage.Boundary?
    ensures StepFacts(s, DoWork(s, i, now, fate, go, id), legacy, i)
  {}

  lemma FinishStep(s: System, legacy: Option<RunRow>, i: nat, now: int, fate: Fate, go: bool, id: int)
    requires Inv(s, legacy) && i < |s.workers| && s.workers[i].pc.Held? && s.workers[i].pc.stage.Finishing?
    ensures StepFacts(s, DoWork(s, i, now, fate, go, id), legacy, i)
  {}

  /** The acting worker's facts, and the others' undisturbed ones, make the invariant. */
  lemma FactsGiveInv(s: System, t: System, legacy: Option<RunRow>, i: nat)
    requires Inv(s, legacy) && StepFacts(s, t, legacy, i)
    ensures Inv(t, legacy)
  {
    forall j | 0 <= j < |t.workers|
      ensures WorkerInv(t, legacy, t.workers[j].pc)
    {
      if j != i {
        OthersUndisturbed(s, t, legacy, Actor(s, t, i), s.workers[j].pc);
      }
    }
  }

  lemma NextKeepsInv(s: System, legacy: Option<RunRow>, step: Step)
    requires Inv(s, legacy)
    ensures Inv(Next(s, step), legacy)
    ensures Advances(s.rows, Next(s, step).rows)
    ensures s.rows.run.Some? ==> Next(s, step).rows.run == s.rows.run
    ensures s.marks != [] ==> Next(s, step).marks == s.marks
  {
    var t := Next(s, step);
    match step {
      case Work(i, now, fate, go, id) =>
        if i < |s.workers| {
          var pc := s.workers[i].pc;
          if !pc.Held? {
            UnclaimedStep(s, legacy, i, now, fate, go, id);
          } else if pc.stage.Marking? {
            MarkStep(s, legacy, i, now, fate, go, id);
          } else if pc.stage.Boundary? {
            BoundaryStep(s, legacy, i, now, fate, go, id);
          } else if pc.stage.Finishing? {
            FinishStep(s, legacy, i, now, fate, go, id);
          } else if pc.stage.Preparing? {
            PrepareStep(s, legacy, i, now, fate, go, id);
          } else if pc.stage.Authorizing? {
            AuthorizeStep(s, legacy, i, now, fate, go, id);
          } else if pc.stage.Releasing? {
            ReleaseStep(s, legacy, i, now, fate, go, id);
          } else {
            LookStep(s, legacy, i, now, fate, go, id);
          }
          FactsGiveInv(s, t, legacy, i);
        }
      case Crash(i) =>
      case RequestCancel(now, fate) =>
        forall j | 0 <= j < |t.workers|
          ensures WorkerInv(t, legacy, t.workers[j].pc)
        {
          OthersUndisturbed(s, t, legacy, None, s.workers[j].pc);
        }
    }
  }

  /** Everything reachable keeps the invariant, and nothing recorded is ever taken back. */
  lemma {:induction false} RunKeepsInv(s: System, legacy: Option<RunRow>, steps: seq<Step>)
    requires Inv(s, legacy)
    ensures Inv(Run(s, steps), legacy)
    ensures Advances(s.rows, Run(s, steps).rows)
    ensures s.rows.run.Some? ==> Run(s, steps).rows.run == s.rows.run
    ensures s.marks != [] ==> Run(s, steps).marks == s.marks
    decreases |steps|
  {
    if steps != [] {
      NextKeepsInv(s, legacy, steps[0]);
      RunKeepsInv(Next(s, steps[0]), legacy, steps[1..]);
    }
  }

  lemma {:induction false} RunSplits(s: System, first: seq<Step>, rest: seq<Step>)
    ensures Run(s, first + rest) == Run(Run(s, first), rest)
    decreases |first|
  {
    if first == [] {
      assert first + rest == rest;
    } else {
      assert (first + rest)[0] == first[0] && (first + rest)[1..] == first[1..] + rest;
      RunSplits(Next(s, first[0]), first[1..], rest);
    }
  }

  // ----- the theorems

  /**
   Send at most once: over every interleaving at most one mark succeeds and at most
   one request leaves, and it leaves under the marked generation.
   */
  lemma {:induction false} SendAtMostOnce(init: System, steps: seq<Step>)
    requires Initial(init)
    ensures var s := Run(init, steps);
            |s.marks| <= 1 && |s.sends| <= 1 && (s.sends != [] ==> s.sends == s.marks)
  {
    RunKeepsInv(init, init.rows.run, steps);
  }

  /** A crossed phase is never left: its row is the same in every continuation. */
  lemma {:induction false} CrossedPhaseIsFinal(init: System, first: seq<Step>, rest: seq<Step>)
    requires Initial(init)
    requires Run(init, first).rows.Crossed()
    ensures Run(init, first + rest).rows.progress == Run(init, first).rows.progress
    ensures Run(init, first).marks != [] ==> Run(init, first + rest).marks == Run(init, first).marks
  {
    RunKeepsInv(init, init.rows.run, first);
    RunKeepsInv(Run(init, first), init.rows.run, rest);
    RunSplits(init, first, rest);
  }

  /**
   Only the worker whose mark succeeded writes the result: a result that was not
   there from the start carries exactly the generation of the started progress row.
   */
  lemma {:induction false} OnlyTheSenderWrites(init: System, steps: seq<Step>)
    requires Initial(init)
    requires Run(init, steps).rows.run.Some?
    ensures var s := Run(init, steps);
            init.rows.run == s.rows.run
            || (s.marks == [s.rows.run.value.generation]
                && s.rows.progress == Some(ProgressRow(s.rows.run.value.generation, NetworkStarted)))
  {
    RunKeepsInv(init, init.rows.run, steps);
  }

  /** The result is written once, and every execute call that returns one returns that one. */
  lemma {:induction false} ReturnedResultsAgree(init: System, steps: seq<Step>, i: nat, j: nat)
    requires Initial(init)
    requires var s := Run(init, steps);
             i < |s.workers| && j < |s.workers|
             && s.workers[i].pc.Done? && s.workers[i].pc.verdict.Returned?
             && s.workers[j].pc.Done? && s.workers[j].pc.verdict.Returned?
    ensures var s := Run(init, steps);
            s.workers[i].pc.verdict == s.workers[j].pc.verdict
            && s.rows.run == Some(s.workers[i].pc.verdict.run)
  {
    RunKeepsInv(init, init.rows.run, steps);
    var s := Run(init, steps);
    assert WorkerInv(s, init.rows.run, s.workers[i].pc) && WorkerInv(s, init.rows.run, s.workers[j].pc);
  }

  /**
   Cancellation and execution exclude each other: once a plan is cancelled nothing
   was marked, sent or written, and no continuation changes that.
   */
  lemma {:induction false} CancelledNeverRuns(init: System, first: seq<Step>, rest: seq<Step>)
    requires Initial(init)
    requires Run(init, first).rows.cancelledAt.Some?
    ensures var s := Run(init, first + rest);
            s.marks == [] && s.sends == [] && s.rows.run == None && !s.rows.Crossed()
            && s.rows.cancelledAt == Run(init, first).rows.cancelledAt
  {
    RunKeepsInv(init, init.rows.run, first);
    RunKeepsInv(Run(init, first), init.rows.run, rest);
    RunSplits(init, first, rest);
  }

  /** And the other way round: a plan that was marked, sent or finished cannot become cancelled. */
  lemma {:induction false} StartedNeverCancelled(init: System, first: seq<Step>, rest: seq<Step>)
    requires Initial(init)
    requires var s := Run(init, first); s.marks != [] || s.sends != [] || s.rows.run.Some?
    ensures Run(init, first + rest).rows.cancelledAt == None
  {
    RunKeepsInv(init, init.rows.run, first);
    RunKeepsInv(Run(init, first), init.rows.run, rest);
    RunSplits(init, first, rest);
  }

  /** No two workers ever hold the same generation, and none holds one above the claim row's. */
  lemma {:induction false} HoldersAreFenced(init: System, steps: seq<Step>, i: nat, j: nat)
    requires Initial(init)
    requires var s := Run(init, steps);
             i < |s.workers| && j < |s.workers| && i != j && s.workers[i].pc.Held? && s.workers[j].pc.Held?
    ensures var s := Run(init, steps);
            && s.workers[i].pc.h.generation != s.workers[j].pc.h.generation
            && 0 < s.workers[i].pc.h.generation <= s.rows.ClaimGeneration()
  {
    RunKeepsInv(init, init.rows.run, steps);
    var s := Run(init, steps);
    assert WorkerInv(s, init.rows.run, s.workers[i].pc);
  }

  /**
   The recovery branch of the result transaction is never needed: a current holder
   that comes to write finds no result there, whichever way the workers interleaved.
   */
  lemma {:induction false} CurrentWriterFindsNoResult(init: System, steps: seq<Step>, i: nat, now: int)
    requires Initial(init)
    requires var s := Run(init, steps);
             i < |s.workers| && s.workers[i].pc.Held? && s.workers[i].pc.stage.Finishing?
             && Current(s.rows, s.workers[i].pc.h, now)
    ensures Run(init, steps).rows.run == None
  {
    RunKeepsInv(init, init.rows.run, steps);
    var s := Run(init, steps);
    assert WorkerInv(s, init.rows.run, s.workers[i].pc);
  }

  // ----- a fresh worker that nothing disturbs

  /** A step of one worker with a working clock, database and network. */
  function Smooth(i: nat, now: int, id: int): Step {
    Work(i, now, Commits, true, id)
  }

  /** The system with other rows, another place for worker i, and other memories. */
  function At(s: System, i: nat, rows: Rows, pc: Pc, marks: seq<int>, sends: seq<int>): System
    requires i < |s.workers|
  {
    System(rows, s.workers[i := s.workers[i].(pc := pc)], marks, sends)
  }

  /** Nobody has cancelled or finished, and the claim can be taken. */
  predicate Claimable(rows: Rows, now: int) {
    && rows.cancelledAt.None? && rows.run.None?
    && (rows.claim.None? || rows.claim.value.owner.None? || rows.claim.value.leaseExpiresAt <= now)
  }

  /** Nor has anybody crossed. */
  predicate Available(rows: Rows, now: int) {
    !rows.Crossed() && Claimable(rows, now)
  }

  lemma RunSnoc(s: System, steps: seq<Step>, step: Step)
    ensures Run(s, steps + [step]) == Next(Run(s, steps), step)
  {
    RunSplits(s, steps, [step]);
    assert Run(Next(Run(s, steps), step), []) == Next(Run(s, steps), step);
    assert [step][1..] == [];
  }

  lemma OneMore(s: System, step: Step, k: nat, after: System)
    requires Next(Run(s, seq(k, _ => step)), step) == after
    ensures Run(s, seq(k + 1, _ => step)) == after
  {
    assert seq(k + 1, _ => step) == seq(k, _ => step) + [step];
    RunSnoc(s, seq(k, _ => step), step);
  }

  lemma AtItself(s: System, i: nat)
    requires i < |s.workers|
    ensures At(s, i, s.rows, s.workers[i].pc, s.marks, s.sends) == s
  {
    assert s.workers[i := s.workers[i].(pc := s.workers[i].pc)] == s.workers;
  }

  lemma AcquiresFree(rows: Rows, owner: string, lease: int, now: int)
    requires Claimable(rows, now)
    ensures var g := rows.ClaimGeneration() + 1;
            AcquireTxn(rows, owner, lease, now) == (rows.(claim := Some(ClaimRow(Some(owner), g, now + lease))), Some(Handle(owner, g)))
  {}

  /** From the first look to the claim. */
  lemma GetsTheClaim(s: System, i: nat, rows: Rows, now: int, id: int)
    requires i < |s.workers| && Claimable(rows, now)
    ensures var w, g := s.workers[i], rows.ClaimGeneration() + 1;
            Run(At(s, i, rows, Preflight, s.marks, s.sends), seq(3, _ => Smooth(i, now, id)))
            == At(s, i, rows.(claim := Some(ClaimRow(Some(w.owner), g, now + w.lease))), Held(Handle(w.owner, g), FreshResult), s.marks, s.sends)
  {
    var w, g, step := s.workers[i], rows.ClaimGeneration() + 1, Smooth(i, now, id);
    var first := At(s, i, rows, Preflight, s.marks, s.sends);
    AcquiresFree(rows, w.owner, w.lease, now);
    OneMore(first, step, 0, At(s, i, rows, PreflightCancel(w.retries), s.marks, s.sends));
    OneMore(first, step, 1, At(s, i, rows, Acquiring(w.retries), s.marks, s.sends));
    OneMore(first, step, 2, At(s, i, rows.(claim := Some(ClaimRow(Some(w.owner), g, now + w.lease))), Held(Handle(w.owner, g), FreshResult), s.marks, s.sends));
  }

  /** From the claim to the marked boundary. */
  lemma GetsTheMark(s: System, i: nat, rows: Rows, now: int, id: int)
    requires i < |s.workers| && s.workers[i].lease > 0
    requires WellFormed(rows) && !rows.Crossed() && rows.cancelledAt.None? && rows.run.None?
    requires rows.claim == Some(ClaimRow(Some(s.workers[i].owner), rows.ClaimGeneration(), now + s.workers[i].lease))
    ensures var w, g := s.workers[i], rows.ClaimGeneration();
            var h := Handle(w.owner, g);
            Run(At(s, i, rows, Held(h, FreshResult), s.marks, s.sends), seq(5, _ => Smooth(i, now, id)))
            == At(s, i, rows.(progress := Some(ProgressRow(g, NetworkStarted))), Held(h, Boundary), s.marks + [g], s.sends)
  {
    var w, g, step := s.workers[i], rows.ClaimGeneration(), Smooth(i, now, id);
    var h := Handle(w.owner, g);
    var first, prepared := At(s, i, rows, Held(h, FreshResult), s.marks, s.sends), rows.(progress := Some(ProgressRow(g, PreNetwork)));
    OneMore(first, step, 0, At(s, i, rows, Held(h, FreshCancel(w.retries)), s.marks, s.sends));
    OneMore(first, step, 1, At(s, i, rows, Held(h, Preparing(w.retries)), s.marks, s.sends));
    OneMore(first, step, 2, At(s, i, prepared, Held(h, Authorizing(w.retries)), s.marks, s.sends));
    OneMore(first, step, 3, At(s, i, prepared, Held(h, Marking(w.retries)), s.marks, s.sends));
    OneMore(first, step, 4, At(s, i, rows.(progress := Some(ProgressRow(g, NetworkStarted))), Held(h, Boundary), s.marks + [g], s.sends));
  }

  /** From the boundary to the returned result. */
  lemma GetsTheResult(s: System, i: nat, rows: Rows, marks: seq<int>, now: int, id: int)
    requires i < |s.workers| && s.workers[i].lease > 0 && rows.cancelledAt.None? && rows.run.None?
    requires rows.claim == Some(ClaimRow(Some(s.workers[i].owner), rows.ClaimGeneration(), now + s.workers[i].lease))
    ensures var w, g := s.workers[i], rows.ClaimGeneration();
            var run := RunRow(id, g);
            Run(At(s, i, rows, Held(Handle(w.owner, g), Boundary), marks, s.sends), seq(3, _ => Smooth(i, now, id)))
            == At(s, i, rows.(claim := Some(ClaimRow(None, g, now)), run := Some(run)), Done(Returned(run)), marks, s.sends + [g])
  {
    var w, g, step := s.workers[i], rows.ClaimGeneration(), Smooth(i, now, id);
    var h, run := Handle(w.owner, g), RunRow(id, g);
    var first := At(s, i, rows, Held(h, Boundary), marks, s.sends);
    OneMore(first, step, 0, At(s, i, rows, Held(h, Finishing(true)), marks, s.sends + [g]));
    OneMore(first, step, 1, At(s, i, rows.(run := Some(run)), Held(h, Releasing(w.retries, Returned(run))), marks, s.sends + [g]));
    OneMore(first, step, 2, At(s, i, rows.(claim := Some(ClaimRow(None, g, now)), run := Some(run)), Done(Returned(run)), marks, s.sends + [g]));
  }

  lemma RunOfSame(s: System, step: Step, j: nat, k: nat)
    ensures Run(s, seq(j + k, _ => step)) == Run(Run(s, seq(j, _ => step)), seq(k, _ => step))
  {
    assert seq(j + k, _ => step) == seq(j, _ => step) + seq(k, _ => step);
    RunSplits(s, seq(j, _ => step), seq(k, _ => step));
  }

  lemma FreshWorkerFinishes(s: System, i: nat, now: int, id: int)
    requires WellFormed(s.rows) && i < |s.workers| && s.workers[i].pc == Preflight && s.workers[i].lease > 0 && Available(s.rows, now)
    ensures var g := s.rows.ClaimGeneration() + 1;
            var run := RunRow(id, g);
            Run(s, seq(11, _ => Smooth(i, now, id)))
            == At(s, i, Rows(Some(ClaimRow(None, g, now)), Some(ProgressRow(g, NetworkStarted)), None, Some(run)),
                  Done(Returned(run)), s.marks + [g], s.sends + [g])
  {
    var w, g := s.workers[i], s.rows.ClaimGeneration() + 1;
    var claimed := s.rows.(claim := Some(ClaimRow(Some(w.owner), g, now + w.lease)));
    var marked := claimed.(progress := Some(ProgressRow(g, NetworkStarted)));
    var h := Handle(w.owner, g);
    AtItself(s, i);
    GetsTheClaim(s, i, s.rows, now, id);
    GetsTheMark(s, i, claimed, now, id);
    GetsTheResult(s, i, marked, s.marks + [g], now, id);
    ThreeRuns(s, Smooth(i, now, id), At(s, i, claimed, Held(h, FreshResult), s.marks, s.sends),
              At(s, i, marked, Held(h, Boundary), s.marks + [g], s.sends), Run(s, seq(11, _ => Smooth(i, now, id))));
  }

  lemma ThreeRuns(s: System, step: Step, a: System, b: System, end: System)
    requires Run(s, seq(3, _ => step)) == a && Run(a, seq(5, _ => step)) == b && end == Run(s, seq(11, _ => step))
    ensures end == Run(b, seq(3, _ => step))
  {
    RunOfSame(s, step, 3, 8);
    RunOfSame(a, step, 5, 3);
  }

  lemma ReachableIsWellFormed(init: System, steps: seq<Step>)
    requires Initial(init)
    ensures WellFormed(Run(init, steps).rows)
  {
    RunKeepsInv(init, init.rows.run, steps);
  }

  /**
   Wherever the other workers were left, in whatever reachable state the plan can still be
   executed and claimed, a fresh worker of either kind that nothing disturbs marks, sends,
   writes the result, gives the claim back and returns, in eleven steps.
   */
  lemma UndisturbedWorkerFinishes(init: System, steps: seq<Step>, i: nat, now: int, id: int)
    requires Initial(init)
    requires var s := Run(init, steps);
             i < |s.workers| && s.workers[i].pc == Preflight && s.workers[i].lease > 0 && Available(s.rows, now)
    ensures var s := Run(init, steps);
            var g := s.rows.ClaimGeneration() + 1;
            var run := RunRow(id, g);
            Run(init, steps + seq(11, _ => Smooth(i, now, id)))
            == At(s, i, Rows(Some(ClaimRow(None, g, now)), Some(ProgressRow(g, NetworkStarted)), None, Some(run)),
                  Done(Returned(run)), s.marks + [g], s.sends + [g])
  {
    ReachableIsWellFormed(init, steps);
    RunSplits(init, steps, seq(11, _ => Smooth(i, now, id)));
    FreshWorkerFinishes(Run(init, steps), i, now, id);
  }
}
