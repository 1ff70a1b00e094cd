/** The observation service in place: record objects whose fields the commands assign. */
module ObservationService {
  import opened Wrappers
  import opened ObservationRows
  import opened ObservationStore

  class ObservationRecord {
    const id: int
    const prep: int
    const expiresAt: int
    var state: RecordState
    var unavailableAt: Option<int>
    var holdStartedAt: Option<int>
    var holdUntil: Option<int>
    var holdGeneration: int
    var payload: bool

    constructor (row: Row)
      ensures Value() == row
    {
      id, prep, expiresAt := row.id, row.prep, row.expiresAt;
      state, unavailableAt, payload := row.state, row.unavailableAt, row.payload;
      holdStartedAt, holdUntil, holdGeneration := row.holdStartedAt, row.holdUntil, row.holdGeneration;
    }

    function Value(): Row
      reads this
    {
      Row(id, prep, state, expiresAt, unavailableAt, holdStartedAt, holdUntil, holdGeneration, payload)
    }

    method MarkUnavailable(at: int, endHold: bool)
      modifies this
      ensures Value() == Marked(old(Value()), at, endHold)
    {
      var since := Min(Min(unavailableAt.GetOr(at), expiresAt), at);
      if holdStartedAt.Some? && holdUntil.None? && unavailableAt.Some? {
        since := unavailableAt.value;
      }
      if endHold {
        if holdUntil.Some? && holdStartedAt.Some? && holdStartedAt.value <= at {
          since := Max(since, Min(holdUntil.value, at));
        }
        holdUntil := None;
      }
      unavailableAt := Some(since);
    }

    method RecordUnavailability(p: Prep, closedAt: Option<int>)
      modifies this
      ensures Value() == Recorded(old(Value()), p, closedAt)
    {
      if closedAt.Some? {
        state := Quarantined;
        MarkUnavailable(Min(closedAt.value, p.revokedAt.GetOr(closedAt.value)), false);
      }
      if p.revokedAt.Some? {
        state := Quarantined;
        MarkUnavailable(p.revokedAt.value, true);
      }
    }

    method Judge(p: Prep, closedAt: Option<int>, now: int, replayed: bool, qualified: bool)
      modifies this
      ensures Value() == Judged(old(Value()), p, closedAt, now, replayed, qualified)
    {
      if replayed {
        state := Deleted;
        MarkUnavailable(now, false);
      }
      RecordUnavailability(p, closedAt);
      var seen := StateAt(Value(), now);
      if (seen == Open || seen == Held)
         && !(qualified && closedAt.None? && payload && (now < p.validUntil || seen == Held)) {
        state := Quarantined;
        MarkUnavailable(now, true);
      }
    }

    /** Reconcile's pass over this record; `keep` is false once its tombstone may go. */
    method ReconcileAt(p: Prep, closedAt: Option<int>, now: int, replayed: bool, qualified: bool,
                       ghost outcome: Option<Row>) returns (keep: bool)
      requires outcome == Reconciled(Value(), p, closedAt, now, replayed, qualified)
      modifies this
      ensures outcome == if keep then Some(Value()) else None
    {
      Judge(p, closedAt, now, replayed, qualified);
      ghost var judged := Value();
      if StateAt(Value(), now) == Open || HoldActive(Value(), now) {
        return true;
      }
      var since := unavailableAt.GetOr(expiresAt);
      unavailableAt := Some(Max(since, holdUntil.GetOr(since)));
      payload := false;
      assert Value() == judged.(unavailableAt := Some(Due(judged)), payload := false);
      keep := now < unavailableAt.value + DAYS90;
    }

    method HoldAt(until: int, now: int) returns (r: Result<(), Error>)
      modifies this
      ensures var spec := HoldRow(old(Value()), until, now);
              && Value() == (if spec.Ok? then spec.value else old(Value()))
              && r == (if spec.Ok? then Ok(()) else Err(spec.error))
    {
      var seen := StateAt(Value(), now);
      if (seen != Open && seen != Held) || !payload {
        return Err(SourceUnavailable);
      }
      if !(now < until <= now + DAYS30) {
        return Err(TimeInvalid);
      }
      if holdGeneration >= MAX_HOLD_GENERATION {
        return Err(CapacityExceeded);
      }
      holdGeneration, holdStartedAt, holdUntil := holdGeneration + 1, Some(now), Some(until);
      return Ok(());
    }

    /** A refused release rolls back what recording the causes did to the fields. */
    method ReleaseAt(p: Prep, closedAt: Option<int>, now: int) returns (r: Result<(), Error>)
      modifies this
      ensures var spec := ReleaseRow(old(Value()), p, closedAt, now);
              && Value() == (if spec.Ok? then spec.value else old(Value()))
              && r == (if spec.Ok? then Ok(()) else Err(spec.error))
    {
      var savepoint := Value();
      RecordUnavailability(p, closedAt);
      if holdUntil.None? || holdStartedAt.None? || !(holdStartedAt.value <= now < holdUntil.value) {
        state, unavailableAt, holdUntil := savepoint.state, savepoint.unavailableAt, savepoint.holdUntil;
        return Err(HoldNotActive);
      }
      if state != Available || now >= expiresAt {
        MarkUnavailable(now, true);
      }
      holdUntil := None;
      return Ok(());
    }

    method DeleteAt(p: Prep, closedAt: Option<int>, now: int)
      modifies this
      ensures Value() == DeleteRow(old(Value()), p, closedAt, now)
    {
      RecordUnavailability(p, closedAt);
      state := Deleted;
      MarkUnavailable(now, false);
    }

    method QuarantineAt(p: Prep, closedAt: Option<int>, now: int)
      modifies this
      ensures Value() == QuarantineRow(old(Value()), p, closedAt, now)
    {
      RecordUnavailability(p, closedAt);
      state := Quarantined;
      MarkUnavailable(now, true);
    }

    method Change(op: Op, refusal: Option<Error>, p: Prep, closedAt: Option<int>, now: int) returns (r: Result<(), Error>)
      requires op.Hold? || op.Release? || op.Delete? || op.Quarantine?
      modifies this
      ensures var spec := ChangedRow(old(Value()), op, refusal, p, closedAt, now);
              && Value() == (if spec.Ok? then spec.value else old(Value()))
              && r == (if spec.Ok? then Ok(()) else Err(spec.error))
    {
      r := Ok(());
      match op {
        case Hold(_, until) =>
          if refusal.Some? {
            r := Err(refusal.value);
          } else {
            r := HoldAt(until, now);
          }
        case Release(_) => r := ReleaseAt(p, closedAt, now);
        case Delete(_) => DeleteAt(p, closedAt, now);
        case Quarantine(_) => QuarantineAt(p, closedAt, now);
      }
    }
  }

  function Values(records: seq<ObservationRecord>): seq<Row>
    reads records
  {
    if records == [] then [] else [records[0].Value()] + Values(records[1..])
  }

  lemma {:induction false} ValuesAt(records: seq<ObservationRecord>)
    ensures |Values(records)| == |records|
    ensures forall i :: 0 <= i < |records| ==> Values(records)[i] == records[i].Value()
  {
    if records != [] {
      ValuesAt(records[1..]);
    }
  }

  class ObservationContext {
    var closedAt: Option<int>
    var ready: bool
    var preps: map<int, Prep>
    var records: seq<ObservationRecord>

    ghost predicate Valid()
      reads this
    {
      forall i, j :: 0 <= i < j < |records| ==> records[i] != records[j]
    }

    function State(): Store
      reads this, records
    {
      Store(closedAt, ready, preps, Values(records))
    }

    constructor ()
      ensures Valid() && State() == EMPTY
    {
      closedAt, ready, preps, records := None, false, map[], [];
    }

    method Find(id: int) returns (k: nat)
      ensures k == Index(Values(records), id) <= |records|
    {
      ValuesAt(records);
      k := 0;
      while k < |records|
        invariant k <= |records|
        invariant forall j :: 0 <= j < k ==> records[j].id != id
      {
        if records[k].id == id {
          break;
        }
        k := k + 1;
      }
      IndexIs(Values(records), id, k);
    }

    /** Admit a new record behind the gate, or refuse and change nothing. */
    method AcceptRecord(prep: int, id: int, now: int, go: bool) returns (r: Result<(), Error>)
      requires Valid()
      modifies this
      ensures Valid()
      ensures var spec := Perform(old(State()), Command(Accept(prep, id), now, go));
              && State() == (if spec.Ok? then spec.value else old(State()))
              && r == (if spec.Ok? then Ok(()) else Err(spec.error))
    {
      var refusal := LivePreparation(State(), prep, now, go);
      if refusal.Some? {
        return Err(refusal.value);
      }
      ValuesAt(records);
      var k := Find(id);
      if k < |records| {
        return Err(ContextUnavailable);
      }
      ghost var before := Values(records);
      var row := new ObservationRecord(NewRow(id, prep, preps[prep], now));
      ValuesAt(records + [row]);
      assert Values(records + [row]) == before + [row.Value()];
      records := records + [row];
      return Ok(());
    }

    method RevokePreparation(prep: int, now: int, go: bool) returns (r: Result<(), Error>)
      requires Valid()
      modifies this
      ensures Valid()
      ensures var spec := Perform(old(State()), Command(Revoke(prep), now, go));
              && State() == (if spec.Ok? then spec.value else old(State()))
              && r == (if spec.Ok? then Ok(()) else Err(spec.error))
    {
      if prep !in preps || !go {
        return Err(ContextUnavailable);
      }
      preps := preps[prep := preps[prep].(revokedAt := Some(preps[prep].revokedAt.GetOr(now)))];
      return Ok(());
    }

    /** Changes one record; the others stay as they are. */
    method ChangeAt(k: nat, op: Op, refusal: Option<Error>, now: int) returns (r: Result<(), Error>)
      requires Valid() && (op.Hold? || op.Release? || op.Delete? || op.Quarantine?)
      requires k < |records| && records[k].prep in preps && k < |Values(records)|
      modifies records
      ensures Valid() && records == old(records)
      ensures var spec := ChangedRow(old(records[k].Value()), op, refusal, preps[old(records[k].prep)], closedAt, now);
              && Values(records) == (if spec.Ok? then old(Values(records))[k := spec.value] else old(Values(records)))
              && r == (if spec.Ok? then Ok(()) else Err(spec.error))
    {
      ValuesAt(records);
      ghost var before := Values(records);
      r := records[k].Change(op, refusal, preps[records[k].prep], closedAt, now);
      ValuesAt(records);
      assert Values(records) == before[k := records[k].Value()];
    }

    /** Hold, release, delete or quarantine one record in place, or refuse and change nothing. */
    method ChangeRecord(id: int, op: Op, now: int, go: bool) returns (r: Result<(), Error>)
      requires Valid() && (op.Hold? || op.Release? || op.Delete? || op.Quarantine?)
      modifies records
      ensures Valid() && records == old(records)
      ensures var spec := Lifecycle(old(State()), id, op, now, go);
              && State() == (if spec.Ok? then spec.value else old(State()))
              && r == (if spec.Ok? then Ok(()) else Err(spec.error))
    {
      ValuesAt(records);
      var k := Find(id);
      if k == |records| || records[k].prep !in preps || !go {
        return Err(ContextUnavailable);
      }
      var refusal := LivePreparation(State(), records[k].prep, now, go);
      r := ChangeAt(k, op, refusal, now);
    }

    /** One pass over the records in order: each is judged, purged or dropped. */
    method ReconcilePass(now: int, replay: set<int>, qualified: set<int>) returns (kept: seq<ObservationRecord>)
      requires Valid()
      requires forall i :: 0 <= i < |records| ==> records[i].prep in preps
      modifies records
      ensures forall i, j :: 0 <= i < j < |kept| ==> kept[i] != kept[j]
      ensures Values(kept) == ReconcileRows(old(State()), old(Values(records)), now, replay, qualified)
    {
      ghost var s := State();
      ValuesAt(records);
      ghost var outcomes := Outcomes(s, s.rows, now, replay, qualified);
      var rows := records;
      kept := [];
      ghost var done: seq<Row> := [];
      var k := 0;
      while k < |rows|
        invariant 0 <= k <= |rows|
        invariant forall i :: k <= i < |rows| ==> rows[i] !in kept
        invariant forall i, j :: 0 <= i < j < |kept| ==> kept[i] != kept[j]
        invariant forall i :: k <= i < |rows| ==> rows[i].Value() == s.rows[i]
        invariant |done| == |kept| && forall i :: 0 <= i < |kept| ==> kept[i].Value() == done[i]
        invariant done == Present(outcomes[..k])
      {
        var row := rows[k];
        PresentSnoc(outcomes, k);
        var keep := row.ReconcileAt(preps[row.prep], closedAt, now, row.id in replay, row.id in qualified, outcomes[k]);
        if keep {
          kept, done := kept + [row], done + [row.Value()];
        }
        k := k + 1;
      }
      ValuesAt(kept);
      assert outcomes[..k] == outcomes && Values(kept) == done;
    }

    /** The reconcile command: replay deletions, record causes, purge, drop old tombstones, open the gate. */
    method ReconcileAll(now: int, replay: set<int>, qualified: set<int>)
      requires Valid()
      requires forall i :: 0 <= i < |records| ==> records[i].prep in preps
      modifies this, records
      ensures Valid()
      ensures State() == ReconcileStore(old(State()), now, replay, qualified)
    {
      records := ReconcilePass(now, replay, qualified);
      preps := KeptPreps(preps, Values(records), now);
      ready := closedAt.None?;
    }
  }

  lemma {:induction false} IndexIs(rows: seq<Row>, id: int, k: nat)
    requires k <= |rows| && (k < |rows| ==> rows[k].id == id)
    requires forall j :: 0 <= j < k ==> rows[j].id != id
    ensures Index(rows, id) == k
  {
    if k > 0 {
      IndexIs(rows[1..], id, k - 1);
    }
  }

  lemma PresentSnoc(options: seq<Option<Row>>, k: nat)
    requires k < |options|
    ensures Present(options[..k + 1]) == Present(options[..k]) + (if options[k].Some? then [options[k].value] else [])
  {
    assert options[..k + 1][..k] == options[..k];
  }
}
