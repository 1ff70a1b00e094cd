/**
 The task tables and the three commands on them. A task's versions, events and holds
 are only ever appended to; version n is the n-th element, an event's sequence number
 is its position counted from one. A command that fails leaves the tables as they were.
 */
module TaskRows {
  import opened Wrappers

  const MAX_TASKS := 128
  const MAX_VERSIONS := 16
  const MAX_EVENTS := 64
  const MAX_REQUESTS := 100

  type Plan = int

  datatype TaskId = TaskId(context: int, number: int)

  datatype Kind = VersionCreated | Approved | Revoked | Paused | Cancelled

  /** `limit` is the version's request limit. */
  datatype Version = Version(digest: int, limit: int, members: seq<Plan>, recordedAt: int)

  datatype Event = Event(version: nat, kind: Kind, recordedAt: int)

  /** One GET held for a plan, forever. */
  datatype Hold = Hold(plan: Plan, slot: nat, firstVersion: nat)

  datatype Task = Task(target: int, versions: seq<Version>, events: seq<Event>, held: seq<Hold>)

  type Tables = map<TaskId, Task>

  datatype Error =
    | Invalid
    | Stale
    | TaskCancelled
    | Limit
    | BudgetLimit
    | AlreadyBound
    | ClockInvalid
    | NewVersionRequired
    | ApprovalMissing
    | ExecutionDisabled
    | Unavailable
    | External(code: int)

  datatype Reference = Reference(number: int, version: int, digest: int)

  /** What a proposed version asks for. */
  datatype Draft = Draft(previous: Option<Reference>, expected: int, target: int, limit: int, members: seq<Plan>, digest: int)

  datatype Action = Pause | Cancel | Start | Resume | Dispatch

  /**
   What the rest of the system answers while a command runs: the qualification of the
   members and the clock, and whatever may still fail once the rows are written.
   */
  datatype Outside = Outside(qualified: Option<Error>, at: int, eventAt: int, finished: Option<Error>)

  datatype Command =
    | Create(draft: Draft)
    | Decide(task: Reference, expected: int, approve: bool)
    | Move(task: Reference, expected: int, action: Action)

  predicate Distinct(ps: seq<Plan>) {
    forall i, j :: 0 <= i < j < |ps| ==> ps[i] != ps[j]
  }

  predicate Bounded(limit: int, members: seq<Plan>) {
    1 <= limit <= MAX_REQUESTS && 1 <= |members| <= MAX_REQUESTS && Distinct(members)
  }

  function PlansOf(held: seq<Hold>): set<Plan> {
    set h | h in held :: h.plan
  }

  function SetOf(ps: seq<Plan>): set<Plan> {
    set p | p in ps
  }

  predicate Has(events: seq<Event>, version: nat, kind: Kind) {
    exists i :: 0 <= i < |events| && events[i].version == version && events[i].kind == kind
  }

  predicate HasCancel(events: seq<Event>) {
    exists i :: 0 <= i < |events| && events[i].kind == Cancelled
  }

  /** A plan some other task has selected in any of its versions. */
  predicate BoundElsewhere(db: Tables, id: TaskId, p: Plan) {
    exists other :: other in db && other != id && Selects(db[other], p)
  }

  predicate Selects(t: Task, p: Plan) {
    exists v :: 0 <= v < |t.versions| && p in t.versions[v].members
  }

  /** The task a command may continue: its latest version named exactly, at the expected sequence. */
  function Current(db: Tables, id: TaskId, r: Reference, expected: int): (x: Result<Task, Error>)
    ensures x.Ok? ==>
              && id in db && x.value == db[id] && r.number == id.number
              && r.version == |db[id].versions| > 0 && Last(db[id].versions).digest == r.digest
              && expected == |db[id].events| && !HasCancel(db[id].events)
  {
    if id !in db || r.number != id.number then Err(Unavailable)
    else
      var t := db[id];
      if !(1 <= r.version <= |t.versions|) || t.versions[r.version - 1].digest != r.digest || |t.events| > MAX_EVENTS then Err(Unavailable)
      else if r.version != |t.versions| || |t.events| != expected then Err(Stale)
      else if HasCancel(t.events) then Err(TaskCancelled)
      else Ok(t)
  }

  predicate NotBefore(t: Task, at: int)
    requires t.versions != []
  {
    Last(t.versions).recordedAt <= at && (t.events != [] ==> Last(t.events).recordedAt <= at)
  }

  /** One more event for the latest version. */
  function Append(t: Task, kind: Kind, at: int): Result<Task, Error>
    requires t.versions != []
  {
    if |t.events| >= MAX_EVENTS then Err(Limit)
    else if !NotBefore(t, at) then Err(ClockInvalid)
    else Ok(t.(events := t.events + [Event(|t.versions|, kind, at)]))
  }

  function Last<T>(s: seq<T>): T
    requires s != []
  {
    s[|s| - 1]
  }

  /** What selecting the members requires of the tables, and of everything outside them. */
  function Snapshot(db: Tables, id: TaskId, limit: int, members: seq<Plan>, outside: Outside): Option<Error> {
    if outside.qualified.Some? then outside.qualified
    else if |members| > limit then Some(BudgetLimit)
    else if exists p :: p in members && BoundElsewhere(db, id, p) then Some(AlreadyBound)
    else None
  }

  /** The members that hold no request yet, in order. */
  function Unheld(held: set<Plan>, members: seq<Plan>): seq<Plan> {
    if members == [] then []
    else (if members[0] in held then [] else [members[0]]) + Unheld(held, members[1..])
  }

  function NewHolds(plans: seq<Plan>, slot: nat, version: nat): seq<Hold> {
    seq(|plans|, i requires 0 <= i < |plans| => Hold(plans[i], slot + i, version))
  }

  /** Holds for the latest version's members that have none. */
  function Allocate(t: Task): Result<Task, Error>
    requires t.versions != []
  {
    var v := Last(t.versions);
    var added := Unheld(PlansOf(t.held), v.members);
    if |t.held| > MAX_REQUESTS then Err(BudgetLimit)
    else if |t.held| + |added| > v.limit then Err(BudgetLimit)
    else Ok(t.(held := t.held + NewHolds(added, |t.held| + 1, |t.versions|)))
  }

  function InContext(db: Tables, context: int): set<TaskId> {
    set id | id in db && id.context == context
  }

  /** The task before its new version, or why there cannot be one. */
  function Base(db: Tables, id: TaskId, d: Draft): Result<Task, Error> {
    if id !in db then
      if d.previous.Some? || d.expected != 0 then Err(Stale)
      else if |InContext(db, id.context)| >= MAX_TASKS then Err(Limit)
      else Ok(Task(d.target, [], [], []))
    else if d.previous.None? || d.previous.value.number != id.number || db[id].target != d.target then Err(Stale)
    else
      var x := Current(db, id, d.previous.value, d.expected);
      if x.Err? then x
      else if |x.value.versions| >= MAX_VERSIONS then Err(Limit)
      else x
  }

  function CreateVersion(db: Tables, id: TaskId, d: Draft, outside: Outside): Result<Task, Error> {
    if !Bounded(d.limit, d.members) then Err(Invalid)
    else
      var x := Base(db, id, d);
      if x.Err? then x
      else
        var t := x.value;
        var refused := Snapshot(db, id, d.limit, d.members, outside);
        if refused.Some? then Err(refused.value)
        else if t.events != [] && outside.at < Last(t.events).recordedAt then Err(ClockInvalid)
        else if |t.held| > MAX_REQUESTS || |PlansOf(t.held) + SetOf(d.members)| > d.limit then Err(BudgetLimit)
        else Append(t.(versions := t.versions + [Version(d.digest, d.limit, d.members, outside.at)]), VersionCreated, outside.eventAt)
  }

  function DecideBudget(db: Tables, id: TaskId, r: Reference, expected: int, approve: bool, outside: Outside): Result<Task, Error> {
    var x := Current(db, id, r, expected);
    if x.Err? then x
    else
      var t, v := x.value, |x.value.versions|;
      if approve then
        if Has(t.events, v, Approved) || Has(t.events, v, Revoked) || Has(t.events, v, Paused) then Err(NewVersionRequired)
        else
          var refused := Snapshot(db, id, Last(t.versions).limit, Last(t.versions).members, outside);
          if refused.Some? then Err(refused.value)
          else
            var y := Allocate(t);
            if y.Err? then y else Append(y.value, Approved, outside.eventAt)
      else if !Has(t.events, v, Approved) then Err(ApprovalMissing)
      else Append(t, Revoked, outside.eventAt)
  }

  function Transition(db: Tables, id: TaskId, r: Reference, expected: int, action: Action, outside: Outside): Result<Task, Error> {
    var x := Current(db, id, r, expected);
    if x.Err? then x
    else if action != Pause && action != Cancel then Err(ExecutionDisabled)
    else Append(x.value, if action == Pause then Paused else Cancelled, outside.eventAt)
  }

  /** What the command makes of its task. */
  function Outcome(db: Tables, id: TaskId, c: Command, outside: Outside): Result<Task, Error> {
    match c
    case Create(d) => CreateVersion(db, id, d, outside)
    case Decide(r, expected, approve) => DecideBudget(db, id, r, expected, approve, outside)
    case Move(r, expected, action) => Transition(db, id, r, expected, action, outside)
  }

  /** The outcome, unless something fails after the rows were written: then nothing was. */
  function Committed(db: Tables, id: TaskId, c: Command, outside: Outside): Result<Task, Error> {
    var x := Outcome(db, id, c, outside);
    if x.Ok? && outside.finished.Some? then Err(outside.finished.value) else x
  }

  function Perform(db: Tables, id: TaskId, c: Command, outside: Outside): Tables {
    var x := Committed(db, id, c, outside);
    if x.Ok? then db[id := x.value] else db
  }

  // ----- what an inspection reports

  datatype State = AwaitingBudgetApproval | BudgetApproved | BudgetRevoked | StatePaused | Superseded | StateCancelled

  /** The last approval or revocation among the first n events for the version. */
  function LastDecision(events: seq<Event>, version: nat): Option<Kind> {
    if events == [] then None
    else
      var e := Last(events);
      if e.version == version && (e.kind == Approved || e.kind == Revoked) then Some(e.kind)
      else LastDecision(events[..|events| - 1], version)
  }

  function StateOf(t: Task, version: nat): State {
    if HasCancel(t.events) then StateCancelled
    else if version != |t.versions| then Superseded
    else if Has(t.events, version, Paused) then StatePaused
    else
      match LastDecision(t.events, version)
      case None => AwaitingBudgetApproval
      case Some(k) => if k == Approved then BudgetApproved else BudgetRevoked
  }
}
