/**
 The task commands as the service runs them: rows are written one by one inside a
 savepoint, and any failure, however late, puts the tables back.
 */
module TaskService {
  import opened Wrappers
  import opened TaskRows

  class TaskTables {
    var tasks: Tables

    constructor ()
      ensures tasks == map[]
    {
      tasks := map[];
    }

    /** The tables stand as the specification says, and so does the error. */
    predicate Follows(before: Tables, id: TaskId, x: Result<Task, Error>, e: Option<Error>)
      reads this
    {
      match x
      case Ok(t) => e == None && tasks == before[id := t]
      case Err(error) => e == Some(error)
    }

    method AppendEvent(id: TaskId, kind: Kind, at: int) returns (e: Option<Error>)
      requires id in tasks && tasks[id].versions != []
      modifies this
      ensures Follows(old(tasks), id, Append(old(tasks[id]), kind, at), e)
    {
      var t := tasks[id];
      if |t.events| >= MAX_EVENTS {
        return Some(Limit);
      }
      if at < Last(t.versions).recordedAt || (t.events != [] && at < Last(t.events).recordedAt) {
        return Some(ClockInvalid);
      }
      tasks := tasks[id := t.(events := t.events + [Event(|t.versions|, kind, at)])];
      e := None;
    }

    /** One hold row per member that has none, in the next free slots. */
    method AllocateHolds(id: TaskId) returns (e: Option<Error>)
      requires id in tasks && tasks[id].versions != []
      modifies this
      ensures Follows(old(tasks), id, Allocate(old(tasks[id])), e)
    {
      var t := tasks[id];
      var version := Last(t.versions);
      if |t.held| > MAX_REQUESTS {
        return Some(BudgetLimit);
      }
      var added := Unheld(PlansOf(t.held), version.members);
      if |t.held| + |added| > version.limit {
        return Some(BudgetLimit);
      }
      ghost var all := NewHolds(added, |t.held| + 1, |t.versions|);
      assert t.held + all[..0] == t.held && tasks == tasks[id := t];
      var i := 0;
      while i < |added|
        invariant 0 <= i <= |added| && tasks == old(tasks)[id := t.(held := t.held + all[..i])]
      {
        assert t.held + all[..i + 1] == t.held + all[..i] + [all[i]];
        var now := tasks[id];
        tasks := tasks[id := now.(held := now.held + [Hold(added[i], |t.held| + 1 + i, |t.versions|)])];
        i := i + 1;
      }
      assert all[..|added|] == all;
      e := None;
    }

    method WriteVersion(id: TaskId, d: Draft, outside: Outside) returns (e: Option<Error>)
      modifies this
      ensures Follows(old(tasks), id, CreateVersion(old(tasks), id, d, outside), e)
    {
      if !Bounded(d.limit, d.members) {
        return Some(Invalid);
      }
      var base := Base(tasks, id, d);
      if base.Err? {
        return Some(base.error);
      }
      var refused := Snapshot(tasks, id, d.limit, d.members, outside);
      if refused.Some? {
        return refused;
      }
      var t := base.value;
      if t.events != [] && outside.at < Last(t.events).recordedAt {
        return Some(ClockInvalid);
      }
      tasks := tasks[id := t];
      if |t.held| > MAX_REQUESTS || |PlansOf(t.held) + SetOf(d.members)| > d.limit {
        return Some(BudgetLimit);
      }
      tasks := tasks[id := t.(versions := t.versions + [Version(d.digest, d.limit, d.members, outside.at)])];
      e := AppendEvent(id, VersionCreated, outside.eventAt);
    }

    method Decide(id: TaskId, r: Reference, expected: int, approve: bool, outside: Outside) returns (e: Option<Error>)
      modifies this
      ensures Follows(old(tasks), id, DecideBudget(old(tasks), id, r, expected, approve, outside), e)
    {
      var current := Current(tasks, id, r, expected);
      if current.Err? {
        return Some(current.error);
      }
      var t, v := current.value, |current.value.versions|;
      if approve {
        if Has(t.events, v, Approved) || Has(t.events, v, Revoked) || Has(t.events, v, Paused) {
          return Some(NewVersionRequired);
        }
        var refused := Snapshot(tasks, id, Last(t.versions).limit, Last(t.versions).members, outside);
        if refused.Some? {
          return refused;
        }
        e := AllocateHolds(id);
        if e.Some? {
          return;
        }
        e := AppendEvent(id, Approved, outside.eventAt);
      } else if !Has(t.events, v, Approved) {
        e := Some(ApprovalMissing);
      } else {
        e := AppendEvent(id, Revoked, outside.eventAt);
      }
    }

    method Move(id: TaskId, r: Reference, expected: int, action: Action, outside: Outside) returns (e: Option<Error>)
      modifies this
      ensures Follows(old(tasks), id, Transition(old(tasks), id, r, expected, action, outside), e)
    {
      var current := Current(tasks, id, r, expected);
      if current.Err? {
        return Some(current.error);
      }
      if action == Start || action == Resume || action == Dispatch {
        return Some(ExecutionDisabled);
      }
      e := AppendEvent(id, if action == Pause then Paused else Cancelled, outside.eventAt);
    }

    /** One public operation in its savepoint. */
    method Operation(id: TaskId, c: Command, outside: Outside) returns (e: Option<Error>)
      modifies this
      ensures tasks == Perform(old(tasks), id, c, outside)
      ensures match Committed(old(tasks), id, c, outside) case Ok(_) => e == None case Err(x) => e == Some(x)
    {
      var savepoint := tasks;
      match c {
        case Create(d) => e := WriteVersion(id, d, outside);
        case Decide(r, expected, approve) => e := Decide(id, r, expected, approve, outside);
        case Move(r, expected, action) => e := Move(id, r, expected, action, outside);
      }
      if e.None? {
        e := outside.finished;
      }
      if e.Some? {
        tasks := savepoint;
      }
    }
  }
}
