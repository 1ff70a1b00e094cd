/**
 What each task command achieves, in terms of what an inspection reports afterwards,
 and exactly when it succeeds.
 */
module TaskOutcomes {
  import opened Wrappers
  import opened TaskRows
  import opened TaskLedger

  // ----- the task a command may continue

  /** The reference names the latest version of a live task, and the caller has seen every event. */
  predicate Addresses(db: Tables, id: TaskId, r: Reference, expected: int) {
    && id in db && r.number == id.number
    && var t := db[id];
       && t.versions != [] && r.version == |t.versions| && r.digest == t.versions[|t.versions| - 1].digest
       && |t.events| == expected <= 64
       && forall i :: 0 <= i < |t.events| ==> t.events[i].kind != Cancelled
  }

  lemma CurrentExactly(db: Tables, id: TaskId, r: Reference, expected: int)
    ensures Current(db, id, r, expected).Ok? <==> Addresses(db, id, r, expected)
    ensures Addresses(db, id, r, expected) ==> Current(db, id, r, expected) == Ok(db[id])
  {}

  /** The reference names a version of the task exactly. */
  predicate Identifies(db: Tables, id: TaskId, r: Reference) {
    && id in db && r.number == id.number && 1 <= r.version <= |db[id].versions|
    && db[id].versions[r.version - 1].digest == r.digest && |db[id].events| <= 64
  }

  /** Why a command may not continue: nothing is named exactly, something newer happened, or the task is cancelled. */
  lemma RefusedFor(db: Tables, id: TaskId, r: Reference, expected: int)
    ensures var x := Current(db, id, r, expected);
            && (x == Err(Unavailable) <==> !Identifies(db, id, r))
            && (x == Err(Stale) <==> Identifies(db, id, r) && (r.version != |db[id].versions| || expected != |db[id].events|))
            && (x == Err(TaskCancelled) <==>
                  Identifies(db, id, r) && r.version == |db[id].versions| && expected == |db[id].events| && HasCancel(db[id].events))
  {}

  /** There is room for an event at this time, after everything recorded. */
  predicate Room(t: Task, at: int) {
    && |t.events| < 64
    && (t.versions != [] ==> t.versions[|t.versions| - 1].recordedAt <= at)
    && (t.events != [] ==> t.events[|t.events| - 1].recordedAt <= at)
  }

  /** The same task with one more event. */
  predicate Gains(t: Task, w: Task, at: int) {
    && |w.events| == |t.events| + 1 && w == t.(events := w.events) && w.events[..|t.events|] == t.events
    && w.events[|t.events|].version == |t.versions| && w.events[|t.events|].recordedAt == at
  }

  // ----- pausing and cancelling

  lemma CancelShows(t: Task, w: Task, e: Event, v: nat)
    requires w.events == t.events + [e] && e.kind == Cancelled
    ensures HasCancel(w.events) && StateOf(w, v) == StateCancelled
  {
    assert w.events[|t.events|] == e;
  }

  lemma {:induction false} NoCancelAdded(events: seq<Event>, e: Event)
    requires !HasCancel(events) && e.kind != Cancelled
    ensures !HasCancel(events + [e])
  {}

  lemma PauseShows(t: Task, w: Task, e: Event, v: nat)
    requires w.events == t.events + [e] && w.versions == t.versions && e.kind == Paused && e.version == |t.versions| && !HasCancel(t.events)
    ensures !HasCancel(w.events)
    ensures StateOf(w, v) == if v == |t.versions| then StatePaused else Superseded
  {
    NoCancelAdded(t.events, e);
    HasSnoc(t.events, e, |t.versions|, Paused);
  }

  /**
   A cancel or a pause succeeds exactly on the addressed task with room for its event. A
   cancel shows in every version of the task; a pause shows in its latest and cancels nothing.
   */
  lemma {:induction false} MovedExactly(db: Tables, id: TaskId, r: Reference, expected: int, action: Action, outside: Outside, v: nat)
    ensures var x := Transition(db, id, r, expected, action, outside);
            && (x.Ok? <==> Addresses(db, id, r, expected) && (action == Pause || action == Cancel) && Room(db[id], outside.eventAt))
            && (x.Ok? ==> Gains(db[id], x.value, outside.eventAt))
            && (x.Ok? && action == Cancel ==> HasCancel(x.value.events) && StateOf(x.value, v) == StateCancelled)
            && (x.Ok? && action == Pause ==>
                  && !HasCancel(x.value.events)
                  && StateOf(x.value, v) == if v == |x.value.versions| then StatePaused else Superseded)
            && (Addresses(db, id, r, expected) && action != Pause && action != Cancel ==> x == Err(ExecutionDisabled))
  {
    CurrentExactly(db, id, r, expected);
    var x := Transition(db, id, r, expected, action, outside);
    if x.Ok? {
      var t, w := db[id], x.value;
      var e := w.events[|t.events|];
      assert w.events == t.events + [e];
      if action == Cancel {
        CancelShows(t, w, e, v);
      } else {
        PauseShows(t, w, e, v);
      }
    }
  }

  /** No task can be started, resumed or dispatched, whatever its tables. */
  lemma NothingIsExecuted(db: Tables, id: TaskId, r: Reference, expected: int, action: Action, outside: Outside)
    requires action == Start || action == Resume || action == Dispatch
    ensures Committed(db, id, Move(r, expected, action), outside).Err?
    ensures Perform(db, id, Move(r, expected, action), outside) == db
  {}

  // ----- deciding the budget

  lemma RevocationShows(t: Task, w: Task, e: Event)
    requires w.events == t.events + [e] && w.versions == t.versions && e.kind == Revoked && e.version == |t.versions| && !HasCancel(t.events)
    ensures StateOf(w, |t.versions|) == if Has(t.events, |t.versions|, Paused) then StatePaused else BudgetRevoked
  {
    NoCancelAdded(t.events, e);
    HasSnoc(t.events, e, |t.versions|, Paused);
    assert w.events[..|w.events| - 1] == t.events;
  }

  /** A revocation succeeds exactly on an approved version, and shows, unless the version is paused. */
  lemma {:induction false} RevokedExactly(db: Tables, id: TaskId, r: Reference, expected: int, outside: Outside)
    ensures var x := DecideBudget(db, id, r, expected, false, outside);
            && (x.Ok? <==> Addresses(db, id, r, expected) && Has(db[id].events, |db[id].versions|, Approved) && Room(db[id], outside.eventAt))
            && (x.Ok? ==>
                  && Gains(db[id], x.value, outside.eventAt)
                  && StateOf(x.value, |x.value.versions|)
                     == if Has(db[id].events, |db[id].versions|, Paused) then StatePaused else BudgetRevoked)
  {
    CurrentExactly(db, id, r, expected);
    var x := DecideBudget(db, id, r, expected, false, outside);
    if x.Ok? {
      var t, w := db[id], x.value;
      assert w.events == t.events + [w.events[|t.events|]];
      RevocationShows(t, w, w.events[|t.events|]);
    }
  }

  lemma ApprovalShows(t: Task, w: Task, e: Event)
    requires w.events == t.events + [e] && w.versions == t.versions && e.kind == Approved && e.version == |t.versions| && !HasCancel(t.events)
    requires !Has(t.events, |t.versions|, Paused)
    ensures StateOf(w, |t.versions|) == BudgetApproved
  {
    NoCancelAdded(t.events, e);
    HasSnoc(t.events, e, |t.versions|, Paused);
  }

  lemma ApprovalNeedsUndecided(db: Tables, id: TaskId, r: Reference, expected: int, outside: Outside)
    requires DecideBudget(db, id, r, expected, true, outside).Ok?
    ensures Addresses(db, id, r, expected) && outside.qualified.None? && Undecided(db[id])
  {
    CurrentExactly(db, id, r, expected);
  }

  /**
   At any reachable tables an approval succeeds exactly on an addressed, still qualified
   version that was neither approved, revoked nor paused, and is then what is reported.
   */
  lemma {:induction false} ApprovedAndReported(calls: seq<Call>, id: TaskId, r: Reference, expected: int, outside: Outside)
    ensures var db := Run(map[], calls);
            var x := DecideBudget(db, id, r, expected, true, outside);
            && (x.Ok? <==>
                  && Addresses(db, id, r, expected) && outside.qualified.None?
                  && Undecided(db[id]) && Room(db[id], outside.eventAt))
            && (x.Ok? ==>
                  && Gains(db[id].(held := x.value.held), x.value, outside.eventAt)
                  && StateOf(x.value, |x.value.versions|) == BudgetApproved
                  && PlansOf(x.value.held) == PlansOf(db[id].held) + SetOf(Last(db[id].versions).members))
  {
    var db := Run(map[], calls);
    var x := DecideBudget(db, id, r, expected, true, outside);
    CurrentExactly(db, id, r, expected);
    ReachableInv(calls);
    if x.Ok? {
      ApprovalNeedsUndecided(db, id, r, expected, outside);
    }
    if Addresses(db, id, r, expected) && outside.qualified.None? && Undecided(db[id]) {
      ApprovalSucceedsExactly(db, id, r, expected, outside);
      if x.Ok? {
        SecondDecision(db, id, r, expected, outside);
        ApprovalShows(db[id], x.value, Event(|db[id].versions|, Approved, outside.eventAt));
      }
    }
  }

  // ----- creating a version

  /** What a draft may build on: nothing yet, or the latest version of the task it names. */
  predicate Founded(db: Tables, id: TaskId, d: Draft) {
    if id !in db then d.previous == None && d.expected == 0 && |InContext(db, id.context)| < 128
    else d.previous.Some? && Addresses(db, id, d.previous.value, d.expected) && db[id].target == d.target && |db[id].versions| < 16
  }

  function Before(db: Tables, id: TaskId, d: Draft): Task {
    if id in db then db[id] else Task(d.target, [], [], [])
  }

  lemma FoundedExactly(db: Tables, id: TaskId, d: Draft)
    ensures Base(db, id, d).Ok? <==> Founded(db, id, d)
    ensures Founded(db, id, d) ==> Base(db, id, d) == Ok(Before(db, id, d))
  {
    if id in db && d.previous.Some? {
      CurrentExactly(db, id, d.previous.value, d.expected);
    }
  }

  /** The members fit the limit together with everything the task already holds, and are no other task's. */
  ghost predicate Affordable(db: Tables, id: TaskId, d: Draft) {
    && Bounded(d.limit, d.members)
    && |PlansOf(Before(db, id, d).held) + SetOf(d.members)| <= d.limit
    && forall p :: p in d.members ==> !BoundElsewhere(db, id, p)
  }

  lemma SelectionExactly(db: Tables, id: TaskId, d: Draft, outside: Outside)
    requires Affordable(db, id, d) && outside.qualified.None?
    ensures Snapshot(db, id, d.limit, d.members, outside) == None
  {
    DistinctCount(d.members);
    Included(PlansOf(Before(db, id, d).held), SetOf(d.members));
  }

  lemma HeldIsSmall(t: Task, members: seq<Plan>, limit: int)
    requires HoldsInv(t) && |PlansOf(t.held) + SetOf(members)| <= limit <= MAX_REQUESTS
    ensures |t.held| <= MAX_REQUESTS
  {
    HeldCount(t.held);
    Included(PlansOf(t.held), SetOf(members));
  }

  lemma NoHoldsYet(t: Task)
    requires t.versions == [] && t.held == [] && t.events == []
    ensures HoldsInv(t)
  {
    forall p, v: nat
      ensures !HeldFor(t, p, v)
    {
    }
  }

  lemma {:induction false} NoDecisionYet(events: seq<Event>, v: nat)
    requires forall i :: 0 <= i < |events| ==> events[i].version < v
    ensures LastDecision(events, v) == None && !Has(events, v, Paused)
  {
    if events != [] {
      NoDecisionYet(events[..|events| - 1], v);
    }
  }

  lemma CreationShows(t: Task, w: Task, e: Event, v: nat)
    requires OrderInv(t) && !HasCancel(t.events)
    requires |w.versions| == |t.versions| + 1 && w.events == t.events + [e] && e.kind == VersionCreated && e.version == |w.versions|
    ensures StateOf(w, v) == if v == |w.versions| then AwaitingBudgetApproval else Superseded
  {
    NoCancelAdded(t.events, e);
    NoDecisionYet(t.events, |w.versions|);
    HasSnoc(t.events, e, |w.versions|, Paused);
    assert w.events[..|w.events| - 1] == t.events;
  }

  lemma EmptyIsOrdered(t: Task)
    requires t.versions == [] && t.events == []
    ensures OrderInv(t) && !HasCancel(t.events)
  {}

  /** Founded, affordable and qualified, with room for the version and then for its event. */
  ghost predicate Creatable(db: Tables, id: TaskId, d: Draft, outside: Outside) {
    && Founded(db, id, d) && outside.qualified.None? && Affordable(db, id, d)
    && Room(Before(db, id, d).(versions := []), outside.at)
    && outside.at <= outside.eventAt && Room(Before(db, id, d).(versions := []), outside.eventAt)
  }

  lemma CreationNeeds(db: Tables, id: TaskId, d: Draft, outside: Outside)
    requires CreateVersion(db, id, d, outside).Ok?
    ensures Creatable(db, id, d, outside)
  {
    FoundedExactly(db, id, d);
    CreateIsFitting(db, id, d, outside);
  }

  lemma CreationIsAppended(db: Tables, id: TaskId, d: Draft, outside: Outside, t: Task)
    requires Bounded(d.limit, d.members) && Base(db, id, d) == Ok(t) && Snapshot(db, id, d.limit, d.members, outside) == None
    requires (t.events != [] ==> Last(t.events).recordedAt <= outside.at)
    requires |t.held| <= MAX_REQUESTS && |PlansOf(t.held) + SetOf(d.members)| <= d.limit
    ensures CreateVersion(db, id, d, outside)
            == Append(t.(versions := t.versions + [Version(d.digest, d.limit, d.members, outside.at)]), VersionCreated, outside.eventAt)
  {}

  lemma RoomForTheFirst(t: Task, version: Version, at: int)
    requires Room(t.(versions := []), at) && version.recordedAt <= at
    ensures Append(t.(versions := t.versions + [version]), VersionCreated, at).Ok?
  {}

  lemma CreatableIsCreated(db: Tables, id: TaskId, d: Draft, outside: Outside)
    requires Creatable(db, id, d, outside) && HoldsInv(Before(db, id, d))
    ensures CreateVersion(db, id, d, outside).Ok?
  {
    FoundedExactly(db, id, d);
    SelectionExactly(db, id, d, outside);
    var t := Before(db, id, d);
    HeldIsSmall(t, d.members, d.limit);
    CreationIsAppended(db, id, d, outside, t);
    RoomForTheFirst(t, Version(d.digest, d.limit, d.members, outside.at), outside.eventAt);
  }

  /** What a created version looks like. */
  predicate Creates(t: Task, w: Task, d: Draft, outside: Outside) {
    && w.versions == t.versions + [Version(d.digest, d.limit, d.members, outside.at)]
    && w.held == t.held && w.target == t.target
    && Gains(t.(versions := w.versions), w, outside.eventAt)
  }

  lemma CreationCreates(db: Tables, id: TaskId, d: Draft, outside: Outside, v: nat)
    requires CreateVersion(db, id, d, outside).Ok? && OrderInv(Before(db, id, d))
    ensures var t, w := Before(db, id, d), CreateVersion(db, id, d, outside).value;
            && Creates(t, w, d, outside)
            && StateOf(w, v) == if v == |w.versions| then AwaitingBudgetApproval else Superseded
  {
    var t, w := Before(db, id, d), CreateVersion(db, id, d, outside).value;
    CreateIsFitting(db, id, d, outside);
    assert w.events == t.events + [Event(|t.versions| + 1, VersionCreated, outside.eventAt)];
    CreationShows(t, w, Event(|t.versions| + 1, VersionCreated, outside.eventAt), v);
  }

  lemma BeforeIsSound(db: Tables, id: TaskId, d: Draft)
    requires Inv(db)
    ensures HoldsInv(Before(db, id, d)) && OrderInv(Before(db, id, d))
  {
    if id !in db {
      NoHoldsYet(Before(db, id, d));
      EmptyIsOrdered(Before(db, id, d));
    }
  }

  /**
   At any reachable tables a version is created exactly when the draft is founded, affordable
   and qualified, with room at both clock readings. It then awaits its approval, every
   earlier version is superseded, and the holds are untouched.
   */
  lemma {:induction false} CreatedExactly(calls: seq<Call>, id: TaskId, d: Draft, outside: Outside, v: nat)
    ensures var db := Run(map[], calls);
            var x := CreateVersion(db, id, d, outside);
            && (x.Ok? <==> Creatable(db, id, d, outside))
            && (x.Ok? ==>
                  && Creates(Before(db, id, d), x.value, d, outside)
                  && StateOf(x.value, v) == if v == |x.value.versions| then AwaitingBudgetApproval else Superseded)
  {
    var db := Run(map[], calls);
    ReachableInv(calls);
    BeforeIsSound(db, id, d);
    if CreateVersion(db, id, d, outside).Ok? {
      CreationNeeds(db, id, d, outside);
      CreationCreates(db, id, d, outside, v);
    }
    if Creatable(db, id, d, outside) {
      CreatableIsCreated(db, id, d, outside);
    }
  }

  // ----- the savepoint

  /** A command takes effect exactly if it succeeds and nothing fails after it, and then on its own task alone; otherwise nothing changes. */
  lemma TakesEffectExactly(db: Tables, id: TaskId, c: Command, outside: Outside, other: TaskId)
    ensures var after := Perform(db, id, c, outside);
            && (Committed(db, id, c, outside).Ok? <==> Outcome(db, id, c, outside).Ok? && outside.finished.None?)
            && (Committed(db, id, c, outside).Ok? ==> id in after && Ok(after[id]) == Outcome(db, id, c, outside))
            && (Committed(db, id, c, outside).Err? ==> after == db)
            && (other != id ==> (other in after <==> other in db) && (other in db ==> after[other] == db[other]))
  {}

  // ----- afterwards

  /** A cancelled task is reported cancelled in every version, whatever is called later, and every later command on it fails. */
  lemma {:induction false} CancelledForGood(db: Tables, id: TaskId, r: Reference, expected: int, outside: Outside, later: seq<Call>, v: nat, c: Command, answer: Outside)
    requires Committed(db, id, Move(r, expected, Cancel), outside).Ok?
    ensures var after := Run(Perform(db, id, Move(r, expected, Cancel), outside), later);
            id in after && StateOf(after[id], v) == StateCancelled && Committed(after, id, c, answer).Err?
  {
    var next := Perform(db, id, Move(r, expected, Cancel), outside);
    MovedExactly(db, id, r, expected, Cancel, outside, v);
    CancelledIsFinal(next, later, id);
  }

  /** A paused version is never again reported as awaiting, approved or revoked. */
  lemma {:induction false} PausedForGood(db: Tables, id: TaskId, r: Reference, expected: int, outside: Outside, later: seq<Call>)
    requires Committed(db, id, Move(r, expected, Pause), outside).Ok?
    ensures var after := Run(Perform(db, id, Move(r, expected, Pause), outside), later);
            var v := |db[id].versions|;
            id in after && (StateOf(after[id], v) == StatePaused || StateOf(after[id], v) == Superseded || StateOf(after[id], v) == StateCancelled)
  {
    var next := Perform(db, id, Move(r, expected, Pause), outside);
    MovedExactly(db, id, r, expected, Pause, outside, 0);
    RunExtends(next, later, id);
    var after, n := Run(next, later)[id], |db[id].events|;
    assert next[id].events[n].kind == Paused;
    assert after.events[n] == next[id].events[n];
  }

  /** What a version of a reachable task is reported as, read off its history. */
  lemma {:induction false} AwaitingExactly(t: Task, v: nat)
    requires TaskInv(t) && 1 <= v <= |t.versions|
    ensures StateOf(t, v) == AwaitingBudgetApproval <==> v == |t.versions| && History(t.events, v) == [VersionCreated]
  {
    var ks := History(t.events, v);
    assert Shape(ks);
    LastDecisionIs(t.events, v);
    HistoryHas(t.events, v, Paused);
    HistoryHas(t.events, v, Cancelled);
    if HasCancel(t.events) {
      var i :| 0 <= i < |t.events| && t.events[i].kind == Cancelled;
      CancelBelongsToLatest(t, i);
    } else {
      NoCancelYet(t.events, v);
      if LastDecision(t.events, v).Some? {
        var i :| DecidedAt(ks, i, LastDecision(t.events, v).value);
      } else if |ks| > 1 {
        assert ks[1] in ks;
      }
    }
  }
}
