/**
 One context's observation store: preparations, records, the recovery gate, and the commands. Everything
 outside the store that a command consults (eligibility of the intake, target ownership, capacity, the audit
 log, the payload digest) is the command's `go`, or for reconcile its set of qualified records. A refused
 command changes nothing: its savepoint is rolled back.
 */
module ObservationStore {
  import opened Wrappers
  import opened ObservationRows

  datatype Store = Store(
    closedAt: Option<int>,
    ready: bool,
    preps: map<int, Prep>,
    rows: seq<Row>)

  datatype Op =
    | Prepare(ref: int, validUntil: int, retention: int)
    | Accept(prep: int, id: int)
    | Hold(id: int, until: int)
    | Release(id: int)
    | Delete(id: int)
    | Quarantine(id: int)
    | Revoke(prep: int)
    | Close
    | Restart
    | Suspend
    | Reconcile(replay: set<int>, qualified: set<int>)

  datatype Error =
    | ContextUnavailable | RecoveryRequired | MaintenanceRefused | SourceUnavailable
    | TimeInvalid | CapacityExceeded | HoldNotActive

  datatype Command = Command(op: Op, now: int, go: bool)

  /** The gate in front of all consumption and admission. */
  function Control(s: Store, now: int): Option<Error> {
    if !s.ready then Some(RecoveryRequired)
    else if MaintenanceRequired(s.rows, now) then Some(MaintenanceRefused)
    else None
  }

  /** Why a preparation cannot be used now, in the order the checks are made. */
  function LivePreparation(s: Store, prep: int, now: int, go: bool): Option<Error> {
    if prep !in s.preps || s.preps[prep].revokedAt.Some? || s.closedAt.Some? || !go then Some(ContextUnavailable)
    else if Control(s, now).Some? then Control(s, now)
    else if now >= s.preps[prep].validUntil then Some(ContextUnavailable)
    else None
  }

  function Index(rows: seq<Row>, id: int): (k: nat)
    ensures k <= |rows|
    ensures k < |rows| ==> rows[k].id == id
    ensures forall j :: 0 <= j < k ==> rows[j].id != id
  {
    if rows == [] || rows[0].id == id then 0 else 1 + Index(rows[1..], id)
  }

  function NewRow(id: int, prep: int, p: Prep, now: int): Row {
    Row(id, prep, Available, now + p.retention, None, None, None, 0, true)
  }

  function HoldRow(row: Row, until: int, now: int): Result<Row, Error> {
    if StateAt(row, now) != Open && StateAt(row, now) != Held then Err(SourceUnavailable)
    else if !row.payload then Err(SourceUnavailable)
    else if !(now < until <= now + DAYS30) then Err(TimeInvalid)
    else if row.holdGeneration >= MAX_HOLD_GENERATION then Err(CapacityExceeded)
    else Ok(row.(holdGeneration := row.holdGeneration + 1, holdStartedAt := Some(now), holdUntil := Some(until)))
  }

  function ReleaseRow(row: Row, prep: Prep, closedAt: Option<int>, now: int): Result<Row, Error> {
    var recorded := Recorded(row, prep, closedAt);
    if recorded.holdUntil.None? || recorded.holdStartedAt.None?
       || !(recorded.holdStartedAt.value <= now < recorded.holdUntil.value) then
      Err(HoldNotActive)
    else if recorded.state != Available || now >= recorded.expiresAt then
      Ok(Marked(recorded, now, true))
    else
      Ok(recorded.(holdUntil := None))
  }

  function DeleteRow(row: Row, prep: Prep, closedAt: Option<int>, now: int): Row {
    Marked(Recorded(row, prep, closedAt).(state := Deleted), now, false)
  }

  function QuarantineRow(row: Row, prep: Prep, closedAt: Option<int>, now: int): Row {
    Marked(Recorded(row, prep, closedAt).(state := Quarantined), now, true)
  }

  /** The lifecycle command on one record; a hold is subject to the refusal. */
  function ChangedRow(row: Row, op: Op, refusal: Option<Error>, p: Prep, closedAt: Option<int>, now: int): Result<Row, Error>
    requires op.Hold? || op.Release? || op.Delete? || op.Quarantine?
  {
    match op
    case Hold(_, until) => if refusal.Some? then Err(refusal.value) else HoldRow(row, until, now)
    case Release(_) => ReleaseRow(row, p, closedAt, now)
    case Delete(_) => Ok(DeleteRow(row, p, closedAt, now))
    case Quarantine(_) => Ok(QuarantineRow(row, p, closedAt, now))
  }

  function LifecycleRow(s: Store, row: Row, op: Op, now: int, go: bool): Result<Row, Error>
    requires row.prep in s.preps
    requires op.Hold? || op.Release? || op.Delete? || op.Quarantine?
  {
    ChangedRow(row, op, LivePreparation(s, row.prep, now, go), s.preps[row.prep], s.closedAt, now)
  }

  function Lifecycle(s: Store, id: int, op: Op, now: int, go: bool): Result<Store, Error>
    requires op.Hold? || op.Release? || op.Delete? || op.Quarantine?
  {
    var k := Index(s.rows, id);
    if k == |s.rows| || s.rows[k].prep !in s.preps || !go then Err(ContextUnavailable)
    else
      var changed := LifecycleRow(s, s.rows[k], op, now, go);
      if changed.Err? then Err(changed.error) else Ok(s.(rows := s.rows[k := changed.value]))
  }

  function ReconcileRow(s: Store, row: Row, now: int, replay: set<int>, qualified: set<int>): Option<Row> {
    if row.prep in s.preps
    then Reconciled(row, s.preps[row.prep], s.closedAt, now, row.id in replay, row.id in qualified)
    else Some(row)
  }

  /** The values that are there, in order. */
  function Present<T>(options: seq<Option<T>>): seq<T> {
    if options == [] then []
    else Present(options[..|options| - 1])
         + (var last := options[|options| - 1]; if last.Some? then [last.value] else [])
  }

  function Outcomes(s: Store, rows: seq<Row>, now: int, replay: set<int>, qualified: set<int>): seq<Option<Row>> {
    seq(|rows|, i requires 0 <= i < |rows| => ReconcileRow(s, rows[i], now, replay, qualified))
  }

  function ReconcileRows(s: Store, rows: seq<Row>, now: int, replay: set<int>, qualified: set<int>): seq<Row> {
    Present(Outcomes(s, rows, now, replay, qualified))
  }

  /** Preparations still needed: referenced by a record, or not yet 90 days past their end. */
  function KeptPreps(preps: map<int, Prep>, rows: seq<Row>, now: int): map<int, Prep> {
    map p | p in preps
            && (now < preps[p].revokedAt.GetOr(preps[p].validUntil) + DAYS90
                || exists i :: 0 <= i < |rows| && rows[i].prep == p)
      :: preps[p]
  }

  function ReconcileStore(s: Store, now: int, replay: set<int>, qualified: set<int>): Store {
    var rows := ReconcileRows(s, s.rows, now, replay, qualified);
    Store(s.closedAt, s.closedAt.None?, KeptPreps(s.preps, rows, now), rows)
  }

  function Perform(s: Store, c: Command): Result<Store, Error> {
    var now := c.now;
    match c.op
    case Prepare(ref, validUntil, retention) =>
      if s.closedAt.Some? || !c.go || ref in s.preps || retention <= 0 then Err(ContextUnavailable)
      else if Control(s, now).Some? then Err(Control(s, now).value)
      else if !(now < validUntil <= now + DAYS30) then Err(TimeInvalid)
      else Ok(s.(preps := s.preps[ref := Prep(validUntil, retention, None)]))
    case Accept(prep, id) =>
      var refusal := LivePreparation(s, prep, now, c.go);
      if refusal.Some? then Err(refusal.value)
      else if Index(s.rows, id) < |s.rows| then Err(ContextUnavailable)
      else Ok(s.(rows := s.rows + [NewRow(id, prep, s.preps[prep], now)]))
    case Hold(id, _) => Lifecycle(s, id, c.op, now, c.go)
    case Release(id) => Lifecycle(s, id, c.op, now, c.go)
    case Delete(id) => Lifecycle(s, id, c.op, now, c.go)
    case Quarantine(id) => Lifecycle(s, id, c.op, now, c.go)
    case Revoke(prep) =>
      if prep !in s.preps || !c.go then Err(ContextUnavailable)
      else Ok(s.(preps := s.preps[prep := s.preps[prep].(revokedAt := Some(s.preps[prep].revokedAt.GetOr(now)))]))
    case Close =>
      if s.closedAt.Some? || !c.go then Err(ContextUnavailable) else Ok(s.(closedAt := Some(now)))
    case Restart => Ok(s.(ready := false))
    case Suspend => Ok(s.(ready := false))
    case Reconcile(replay, qualified) =>
      if !c.go || !(forall id :: id in replay ==> Index(s.rows, id) < |s.rows|) then Err(ContextUnavailable)
      else Ok(ReconcileStore(s, now, replay, qualified))
  }

  function Apply(s: Store, c: Command): Store {
    var r := Perform(s, c);
    if r.Ok? then r.value else s
  }

  function Run(s: Store, cs: seq<Command>): Store
    decreases |cs|
  {
    if cs == [] then s else Run(Apply(s, cs[0]), cs[1..])
  }

  /** Commands whose clock readings start no earlier than `from` and never go back. */
  predicate Ordered(cs: seq<Command>, from: int) {
    cs == [] || (from <= cs[0].now && Ordered(cs[1..], cs[0].now))
  }

  function LastTime(cs: seq<Command>, from: int): int {
    if cs == [] then from else cs[|cs| - 1].now
  }

  const EMPTY := Store(None, false, map[], [])

  // ----- whole-run invariants

  predicate StoreInv(s: Store, last: int) {
    && (forall i :: 0 <= i < |s.rows| ==>
          s.rows[i].prep in s.preps && RowInv(s.rows[i], s.preps[s.rows[i].prep], s.closedAt, last))
    && (forall p :: p in s.preps ==> s.preps[p].retention > 0 && (s.preps[p].revokedAt.Some? ==> s.preps[p].revokedAt.value <= last))
    && (s.closedAt.Some? ==> s.closedAt.value <= last)
  }

  predicate FreshSince(s: Store, T: int) {
    forall i :: 0 <= i < |s.rows| ==>
      s.rows[i].prep in s.preps && Fresh(s.rows[i], s.preps[s.rows[i].prep], s.closedAt, T)
  }

  lemma LifecycleRowInv(s: Store, row: Row, op: Op, now: int, go: bool)
    requires row.prep in s.preps && (op.Hold? || op.Release? || op.Delete? || op.Quarantine?)
    requires RowInv(row, s.preps[row.prep], s.closedAt, now)
    ensures var r := LifecycleRow(s, row, op, now, go);
            r.Ok? ==> r.value.prep == row.prep && r.value.id == row.id && RowInv(r.value, s.preps[row.prep], s.closedAt, now)
  {
    var prep := s.preps[row.prep];
    RecordedKeepsInv(row, prep, s.closedAt, now);
    var recorded := Recorded(row, prep, s.closedAt);
    if op.Delete? {
      MarkedKeepsInv(recorded, prep, s.closedAt, now, now, false, Deleted);
    } else if op.Quarantine? {
      MarkedKeepsInv(recorded, prep, s.closedAt, now, now, true, Quarantined);
    } else if op.Release? && ReleaseRow(row, prep, s.closedAt, now).Ok? && (recorded.state != Available || now >= recorded.expiresAt) {
      MarkedKeepsInv(recorded, prep, s.closedAt, now, now, true, recorded.state);
    }
  }

  lemma LifecycleRowFresh(s: Store, row: Row, op: Op, now: int, go: bool, T: int)
    requires row.prep in s.preps && (op.Hold? || op.Release? || op.Delete? || op.Quarantine?)
    requires RowInv(row, s.preps[row.prep], s.closedAt, now) && T <= now
    requires Fresh(row, s.preps[row.prep], s.closedAt, T)
    ensures var r := LifecycleRow(s, row, op, now, go);
            r.Ok? ==> Fresh(r.value, s.preps[row.prep], s.closedAt, T)
  {
    var prep := s.preps[row.prep];
    RecordedKeepsInv(row, prep, s.closedAt, now);
    RecordedKeepsFresh(row, prep, s.closedAt, now, T);
    var recorded := Recorded(row, prep, s.closedAt);
    if op.Delete? {
      MarkedKeepsFresh(recorded, prep, s.closedAt, now, T, false, Deleted);
    } else if op.Quarantine? {
      MarkedKeepsFresh(recorded, prep, s.closedAt, now, T, true, Quarantined);
    } else if op.Release? && ReleaseRow(row, prep, s.closedAt, now).Ok? && (recorded.state != Available || now >= recorded.expiresAt) {
      MarkedKeepsFresh(recorded, prep, s.closedAt, now, T, true, recorded.state);
    }
  }

  lemma {:induction false} PresentOrigin<T>(options: seq<Option<T>>, k: nat) returns (j: nat)
    requires k < |Present(options)|
    ensures j < |options| && options[j] == Some(Present(options)[k])
  {
    var front := options[..|options| - 1];
    if k < |Present(front)| {
      j := PresentOrigin(front, k);
    } else {
      j := |options| - 1;
    }
  }

  lemma ReconcileStoreRow(s: Store, last: int, now: int, replay: set<int>, qualified: set<int>, k: nat) returns (j: nat)
    requires StoreInv(s, last) && last <= now
    requires k < |ReconcileStore(s, now, replay, qualified).rows|
    ensures j < |s.rows|
    ensures var t := ReconcileStore(s, now, replay, qualified);
            && t.rows[k].prep == s.rows[j].prep && t.rows[k].prep in t.preps
            && t.preps[t.rows[k].prep] == s.preps[t.rows[k].prep]
            && Some(t.rows[k]) == Reconciled(s.rows[j], s.preps[s.rows[j].prep], s.closedAt, now, s.rows[j].id in replay, s.rows[j].id in qualified)
            && RowInv(t.rows[k], t.preps[t.rows[k].prep], t.closedAt, now)
            && (t.rows[k].payload ==> StateAt(t.rows[k], now) == Open || HoldActive(t.rows[k], now))
            && (s.closedAt.None? ==> Fresh(t.rows[k], t.preps[t.rows[k].prep], t.closedAt, now))
  {
    j := PresentOrigin(Outcomes(s, s.rows, now, replay, qualified), k);
    ReconciledIsFresh(s.rows[j], s.preps[s.rows[j].prep], s.closedAt, now, last, s.rows[j].id in replay, s.rows[j].id in qualified);
  }

  lemma ReconcileKeepsInv(s: Store, last: int, now: int, replay: set<int>, qualified: set<int>)
    requires StoreInv(s, last) && last <= now
    ensures StoreInv(ReconcileStore(s, now, replay, qualified), now)
  {
    var t := ReconcileStore(s, now, replay, qualified);
    forall k | 0 <= k < |t.rows|
      ensures t.rows[k].prep in t.preps && RowInv(t.rows[k], t.preps[t.rows[k].prep], t.closedAt, now)
    {
      var _ := ReconcileStoreRow(s, last, now, replay, qualified, k);
    }
  }

  lemma ApplyKeepsInv(s: Store, last: int, c: Command)
    requires StoreInv(s, last) && last <= c.now
    ensures StoreInv(Apply(s, c), c.now)
  {
    assert StoreInv(s, c.now);
    match c.op {
      case Hold(id, _) => LifecycleKeepsInv(s, id, c);
      case Release(id) => LifecycleKeepsInv(s, id, c);
      case Delete(id) => LifecycleKeepsInv(s, id, c);
      case Quarantine(id) => LifecycleKeepsInv(s, id, c);
      case Reconcile(replay, qualified) => ReconcileKeepsInv(s, last, c.now, replay, qualified);
      case _ =>
    }
  }

  lemma LifecycleKeepsInv(s: Store, id: int, c: Command)
    requires StoreInv(s, c.now) && (c.op.Hold? || c.op.Release? || c.op.Delete? || c.op.Quarantine?)
    ensures var r := Lifecycle(s, id, c.op, c.now, c.go); r.Ok? ==> StoreInv(r.value, c.now)
  {
    var k := Index(s.rows, id);
    if k < |s.rows| && s.rows[k].prep in s.preps {
      LifecycleRowInv(s, s.rows[k], c.op, c.now, c.go);
    }
  }

  lemma LifecycleKeepsFresh(s: Store, id: int, c: Command, T: int)
    requires StoreInv(s, c.now) && FreshSince(s, T) && T <= c.now
    requires c.op.Hold? || c.op.Release? || c.op.Delete? || c.op.Quarantine?
    ensures var r := Lifecycle(s, id, c.op, c.now, c.go); r.Ok? ==> FreshSince(r.value, T)
  {
    var k := Index(s.rows, id);
    if k < |s.rows| && s.rows[k].prep in s.preps {
      LifecycleRowFresh(s, s.rows[k], c.op, c.now, c.go, T);
    }
  }

  lemma ApplyKeepsFresh(s: Store, last: int, c: Command, T: int)
    requires StoreInv(s, last) && last <= c.now && T <= c.now && FreshSince(s, T)
    ensures FreshSince(Apply(s, c), T)
  {
    assert StoreInv(s, c.now);
    match c.op {
      case Hold(id, _) => LifecycleKeepsFresh(s, id, c, T);
      case Release(id) => LifecycleKeepsFresh(s, id, c, T);
      case Delete(id) => LifecycleKeepsFresh(s, id, c, T);
      case Quarantine(id) => LifecycleKeepsFresh(s, id, c, T);
      case Reconcile(replay, qualified) =>
        var t := ReconcileStore(s, c.now, replay, qualified);
        forall k | 0 <= k < |t.rows|
          ensures t.rows[k].prep in t.preps && Fresh(t.rows[k], t.preps[t.rows[k].prep], t.closedAt, T)
        {
          var j := ReconcileStoreRow(s, last, c.now, replay, qualified, k);
          ReconciledKeepsFresh(s.rows[j], s.preps[s.rows[j].prep], s.closedAt, c.now, last, T, s.rows[j].id in replay, s.rows[j].id in qualified);
        }
      case _ =>
    }
  }

  lemma {:induction false} RunKeepsInv(s: Store, last: int, cs: seq<Command>)
    requires StoreInv(s, last) && Ordered(cs, last)
    ensures StoreInv(Run(s, cs), LastTime(cs, last)) && last <= LastTime(cs, last)
    decreases |cs|
  {
    if cs != [] {
      ApplyKeepsInv(s, last, cs[0]);
      RunKeepsInv(Apply(s, cs[0]), cs[0].now, cs[1..]);
    }
  }

  lemma {:induction false} RunKeepsFresh(s: Store, last: int, cs: seq<Command>, T: int)
    requires StoreInv(s, last) && FreshSince(s, T) && T <= last && Ordered(cs, last)
    ensures FreshSince(Run(s, cs), T)
    decreases |cs|
  {
    if cs != [] {
      ApplyKeepsInv(s, last, cs[0]);
      ApplyKeepsFresh(s, last, cs[0], T);
      RunKeepsFresh(Apply(s, cs[0]), cs[0].now, cs[1..], T);
    }
  }

  // ----- the theorems

  /** After a reconcile only available or actively held records keep a payload, however the store got there. */
  lemma {:induction false} ReconcileKeepsOnlyUsablePayloads(from: int, cs: seq<Command>, now: int, replay: set<int>, qualified: set<int>, k: nat)
    requires Ordered(cs, from) && LastTime(cs, from) <= now
    requires Perform(Run(EMPTY, cs), Command(Reconcile(replay, qualified), now, true)).Ok?
    requires k < |Apply(Run(EMPTY, cs), Command(Reconcile(replay, qualified), now, true)).rows|
    ensures var row := Apply(Run(EMPTY, cs), Command(Reconcile(replay, qualified), now, true)).rows[k];
            row.payload ==> StateAt(row, now) == Open || HoldActive(row, now)
  {
    RunKeepsInv(EMPTY, from, cs);
    var _ := ReconcileStoreRow(Run(EMPTY, cs), LastTime(cs, from), now, replay, qualified, k);
  }

  /**
   The purge bound: after a reconcile at T in an open context, and any later commands
   with clock readings that never go back, purging is not overdue before T plus one day.
   */
  lemma {:induction false} NotOverdueWithinADay(from: int, before: seq<Command>, T: int, replay: set<int>, qualified: set<int>, later: seq<Command>, now: int)
    requires Ordered(before, from) && LastTime(before, from) <= T
    requires Run(EMPTY, before).closedAt.None?
    requires Perform(Run(EMPTY, before), Command(Reconcile(replay, qualified), T, true)).Ok?
    requires Ordered(later, T) && LastTime(later, T) <= now < T + DAY
    ensures var s := Run(Apply(Run(EMPTY, before), Command(Reconcile(replay, qualified), T, true)), later);
            !MaintenanceRequired(s.rows, now)
  {
    var s0 := Run(EMPTY, before);
    RunKeepsInv(EMPTY, from, before);
    var s1 := Apply(s0, Command(Reconcile(replay, qualified), T, true));
    assert s1 == ReconcileStore(s0, T, replay, qualified);
    ReconcileKeepsInv(s0, LastTime(before, from), T, replay, qualified);
    forall k | 0 <= k < |s1.rows|
      ensures s1.rows[k].prep in s1.preps && Fresh(s1.rows[k], s1.preps[s1.rows[k].prep], s1.closedAt, T)
    {
      var _ := ReconcileStoreRow(s0, LastTime(before, from), T, replay, qualified, k);
    }
    RunKeepsFresh(s1, T, later, T);
    var s := Run(s1, later);
    forall i | 0 <= i < |s.rows|
      ensures !Overdue(s.rows[i], now)
    {
      FreshIsNotOverdue(s.rows[i], s.preps[s.rows[i].prep], s.closedAt, T, now);
    }
  }

  /** The day is exact: a record deleted right after the reconcile makes purging overdue one day later. */
  lemma OneDayIsTight(T: int)
    ensures var accepted := [Command(Reconcile({}, {}), T, true), Command(Prepare(1, T + DAY, 5), T, true), Command(Accept(1, 9), T, true)];
            var s := Run(EMPTY, accepted);
            && Perform(s, Command(Reconcile({}, {9}), T, true)).Ok?
            && MaintenanceRequired(Run(Apply(s, Command(Reconcile({}, {9}), T, true)), [Command(Delete(9), T, true)]).rows, T + DAY)
  {
    var c1, c2, c3 := Command(Reconcile({}, {}), T, true), Command(Prepare(1, T + DAY, 5), T, true), Command(Accept(1, 9), T, true);
    var s1 := Apply(EMPTY, c1);
    assert s1 == Store(None, true, map[], []);
    var s2 := Apply(s1, c2);
    assert s2 == Store(None, true, map[1 := Prep(T + DAY, 5, None)], []);
    var s3 := Apply(s2, c3);
    var row := NewRow(9, 1, Prep(T + DAY, 5, None), T);
    assert s3.rows == [row];
    assert Run(s3, []) == s3;
    assert [c1, c2, c3][1..] == [c2, c3] && [c2, c3][1..] == [c3] && [c3][1..] == [];
    assert Run(s2, [c3]) == s3;
    var s4 := Apply(s3, Command(Reconcile({}, {9}), T, true));
    var outcomes := Outcomes(s3, [row], T, {}, {9});
    assert outcomes == [Some(row)] && outcomes[..0] == [];
    assert Present(outcomes) == Present(outcomes[..0]) + [row];
    assert s4.rows == [row] && s4.preps == s3.preps;
    var gone := DeleteRow(row, Prep(T + DAY, 5, None), None, T);
    assert Index([row], 9) == 0;
    var s5 := Apply(s4, Command(Delete(9), T, true));
    assert s5.rows == [gone];
    assert [Command(Delete(9), T, true)][1..] == [];
    assert Run(s5, []) == s5;
    assert Overdue(s5.rows[0], T + DAY);
  }
}
