/**
 Observation records: availability, holds, and the instant from which a record
 counts as unavailable. Times are microseconds.
 */
module ObservationRows {
  import opened Wrappers

  const DAY := 86_400_000_000
  const DAYS30 := 30 * DAY
  const DAYS90 := 90 * DAY
  const MAX_HOLD_GENERATION := 2147483647

  datatype RecordState = Available | Deleted | Quarantined

  /** What a reader is told. */
  datatype Availability = Open | Held | Expired | Gone(state: RecordState)

  datatype Row = Row(
    id: int,
    prep: int,
    state: RecordState,
    expiresAt: int,
    unavailableAt: Option<int>,
    holdStartedAt: Option<int>,
    holdUntil: Option<int>,
    holdGeneration: int,
    payload: bool)

  datatype Prep = Prep(validUntil: int, retention: int, revokedAt: Option<int>)

  predicate HoldActive(row: Row, now: int) { row.holdUntil.Some? && now < row.holdUntil.value }

  function StateAt(row: Row, now: int): Availability {
    if row.state != Available then Gone(row.state)
    else if HoldActive(row, now) then Held
    else if now >= row.expiresAt then Expired
    else Open
  }

  /** Bring the recorded unavailability back to the earliest cause, or forward to the end of a hold that is consumed now. */
  function Marked(row: Row, at: int, endHold: bool): Row {
    var earliest := Min(Min(row.unavailableAt.GetOr(at), row.expiresAt), at);
    var since :=
      if row.holdStartedAt.Some? && row.holdUntil.None? && row.unavailableAt.Some? then row.unavailableAt.value
      else earliest;
    if endHold then
      var ended :=
        if row.holdUntil.Some? && row.holdStartedAt.Some? && row.holdStartedAt.value <= at
        then Max(since, Min(row.holdUntil.value, at)) else since;
      row.(unavailableAt := Some(ended), holdUntil := None)
    else
      row.(unavailableAt := Some(since))
  }

  /** Causes already on record: a closed context, a revoked preparation. */
  function Recorded(row: Row, prep: Prep, closedAt: Option<int>): Row {
    var closed :=
      if closedAt.Some?
      then Marked(row.(state := Quarantined), Min(closedAt.value, prep.revokedAt.GetOr(closedAt.value)), false)
      else row;
    if prep.revokedAt.Some? then Marked(closed.(state := Quarantined), prep.revokedAt.value, true) else closed
  }

  /** The instant from which the payload of an unavailable record is due for purging. */
  function Due(row: Row): int {
    var since := row.unavailableAt.GetOr(row.expiresAt);
    Max(since, row.holdUntil.GetOr(since))
  }

  predicate Overdue(row: Row, now: int) {
    row.payload && !HoldActive(row, now) && StateAt(row, now) != Open && now >= Due(row) + DAY
  }

  /** Some payload is overdue for purging, so new work is refused. */
  predicate MaintenanceRequired(rows: seq<Row>, now: int) {
    exists i :: 0 <= i < |rows| && Overdue(rows[i], now)
  }

  // ----- one reconciliation pass over one record

  /** Everything reconcile decides about a record before purging it. */
  function Judged(row: Row, prep: Prep, closedAt: Option<int>, now: int, replayed: bool, qualified: bool): Row {
    var replay := if replayed then Marked(row.(state := Deleted), now, false) else row;
    var recorded := Recorded(replay, prep, closedAt);
    var state := StateAt(recorded, now);
    if (state == Open || state == Held)
       && !(qualified && closedAt.None? && recorded.payload && (now < prep.validUntil || state == Held))
    then Marked(recorded.(state := Quarantined), now, true)
    else recorded
  }

  /** The record after reconcile, or nothing once its tombstone has been kept long enough. */
  function Reconciled(row: Row, prep: Prep, closedAt: Option<int>, now: int, replayed: bool, qualified: bool): Option<Row> {
    var judged := Judged(row, prep, closedAt, now, replayed, qualified);
    if StateAt(judged, now) == Open || HoldActive(judged, now) then Some(judged)
    else
      var purged := judged.(unavailableAt := Some(Due(judged)), payload := false);
      if now >= Due(judged) + DAYS90 then None else Some(purged)
  }

  // ----- invariants of reachable records

  /** What holds of a record in a store whose latest event was at `last`. */
  predicate RowInv(row: Row, prep: Prep, closedAt: Option<int>, last: int) {
    && (row.holdUntil.Some? ==> row.holdStartedAt.Some?)
    && (row.holdStartedAt.Some? ==>
          && row.holdStartedAt.value <= last
          && (prep.revokedAt.Some? ==> row.holdStartedAt.value <= prep.revokedAt.value))
    && (row.unavailableAt.Some? ==> row.unavailableAt.value <= last)
    && (row.state != Available ==> row.unavailableAt.Some?)
    && (row.state == Available && row.unavailableAt.Some? ==> row.expiresAt <= last && !HoldActive(row, last))
    && (prep.revokedAt.Some? ==> prep.revokedAt.value <= last)
    && (closedAt.Some? ==> closedAt.value <= last)
  }

  /** A payload still kept since a reconcile at T does not fall due before T, whatever its record goes through. */
  predicate Fresh(row: Row, prep: Prep, closedAt: Option<int>, T: int) {
    row.payload ==>
      && (prep.revokedAt.Some? ==> T <= prep.revokedAt.value)
      && (closedAt.Some? ==> T <= closedAt.value)
      && (|| (T <= row.expiresAt && (row.unavailableAt.Some? ==> T <= row.unavailableAt.value))
          || (row.holdUntil.Some? && T <= row.holdUntil.value)
          || (row.holdStartedAt.Some? && row.holdUntil.None? && row.unavailableAt.Some? && T <= row.unavailableAt.value))
  }

  lemma FreshIsNotOverdue(row: Row, prep: Prep, closedAt: Option<int>, T: int, now: int)
    requires Fresh(row, prep, closedAt, T) && now < T + DAY
    ensures !Overdue(row, now)
  {}

  lemma MarkedKeepsInv(row: Row, prep: Prep, closedAt: Option<int>, at: int, last: int, endHold: bool, state: RecordState)
    requires RowInv(row, prep, closedAt, last) && at <= last
    requires state != Available || (row.expiresAt <= last && row.unavailableAt.None? && endHold)
    ensures RowInv(Marked(row.(state := state), at, endHold), prep, closedAt, last)
  {}

  lemma MarkedKeepsFresh(row: Row, prep: Prep, closedAt: Option<int>, at: int, T: int, endHold: bool, state: RecordState)
    requires Fresh(row, prep, closedAt, T) && (row.payload ==> T <= at)
    requires endHold && row.holdUntil.Some? ==> row.holdStartedAt.Some? && row.holdStartedAt.value <= at
    ensures Fresh(Marked(row.(state := state), at, endHold), prep, closedAt, T)
  {}

  lemma RecordedKeepsInv(row: Row, prep: Prep, closedAt: Option<int>, last: int)
    requires RowInv(row, prep, closedAt, last)
    ensures RowInv(Recorded(row, prep, closedAt), prep, closedAt, last)
    ensures prep.revokedAt.Some? ==> Recorded(row, prep, closedAt).holdUntil.None?
    ensures closedAt.Some? || prep.revokedAt.Some? ==> Recorded(row, prep, closedAt).state == Quarantined
  {}

  lemma RecordedKeepsFresh(row: Row, prep: Prep, closedAt: Option<int>, last: int, T: int)
    requires RowInv(row, prep, closedAt, last) && Fresh(row, prep, closedAt, T)
    ensures Fresh(Recorded(row, prep, closedAt), prep, closedAt, T)
  {}

  lemma JudgedKeepsInv(row: Row, prep: Prep, closedAt: Option<int>, now: int, last: int, replayed: bool, qualified: bool)
    requires RowInv(row, prep, closedAt, last) && last <= now
    ensures var judged := Judged(row, prep, closedAt, now, replayed, qualified);
            && RowInv(judged, prep, closedAt, now)
            && (prep.revokedAt.Some? ==> judged.holdUntil.None?)
            && (closedAt.Some? || prep.revokedAt.Some? ==> judged.state != Available)
  {
    assert RowInv(row, prep, closedAt, now);
    var replay := if replayed then Marked(row.(state := Deleted), now, false) else row;
    MarkedKeepsInv(row, prep, closedAt, now, now, false, Deleted);
    RecordedKeepsInv(replay, prep, closedAt, now);
    var recorded := Recorded(replay, prep, closedAt);
    MarkedKeepsInv(recorded, prep, closedAt, now, now, true, Quarantined);
  }

  /** One pass keeps the record invariant, and what it leaves with a payload is fresh as of now. */
  lemma ReconciledIsFresh(row: Row, prep: Prep, closedAt: Option<int>, now: int, last: int, replayed: bool, qualified: bool)
    requires RowInv(row, prep, closedAt, last) && last <= now
    ensures var r := Reconciled(row, prep, closedAt, now, replayed, qualified);
            r.Some? ==>
              && r.value.id == row.id && r.value.prep == row.prep
              && RowInv(r.value, prep, closedAt, now)
              && (r.value.payload ==> StateAt(r.value, now) == Open || HoldActive(r.value, now))
              && (closedAt.None? ==> Fresh(r.value, prep, closedAt, now))
  {
    JudgedKeepsInv(row, prep, closedAt, now, last, replayed, qualified);
    var judged := Judged(row, prep, closedAt, now, replayed, qualified);
    if StateAt(judged, now) != Open && !HoldActive(judged, now) {
      assert RowInv(judged.(unavailableAt := Some(Due(judged)), payload := false), prep, closedAt, now);
    }
  }

  lemma JudgedKeepsFresh(row: Row, prep: Prep, closedAt: Option<int>, now: int, last: int, T: int, replayed: bool, qualified: bool)
    requires RowInv(row, prep, closedAt, last) && last <= now && T <= now
    requires Fresh(row, prep, closedAt, T)
    ensures Fresh(Judged(row, prep, closedAt, now, replayed, qualified), prep, closedAt, T)
  {
    var replay := if replayed then Marked(row.(state := Deleted), now, false) else row;
    assert RowInv(row, prep, closedAt, now);
    RecordedKeepsInv(replay, prep, closedAt, now);
    RecordedKeepsFresh(replay, prep, closedAt, now, T);
  }

  /** A later pass keeps what was fresh as of an earlier reconcile. */
  lemma ReconciledKeepsFresh(row: Row, prep: Prep, closedAt: Option<int>, now: int, last: int, T: int, replayed: bool, qualified: bool)
    requires RowInv(row, prep, closedAt, last) && last <= now && T <= now
    requires Fresh(row, prep, closedAt, T)
    ensures var r := Reconciled(row, prep, closedAt, now, replayed, qualified);
            r.Some? ==> Fresh(r.value, prep, closedAt, T)
  {
    JudgedKeepsFresh(row, prep, closedAt, now, last, T, replayed, qualified);
  }

  /**
   Marking again, late or early, never postpones the purge: only a hold that was in
   force counts, up to its end.
   */
  lemma MarkedNeverPostpones(row: Row, at: int, endHold: bool, state: RecordState)
    ensures Due(Marked(row.(state := state), at, endHold)) <= Due(row)
    ensures Marked(row, at, endHold).unavailableAt.value <= Due(row)
  {}

  lemma RecordedNeverPostpones(row: Row, prep: Prep, closedAt: Option<int>)
    ensures Due(Recorded(row, prep, closedAt)) <= Due(row)
  {}

  /** Neither does reconciling, so a replayed deletion cannot restart the tombstone period. */
  lemma ReconciledNeverPostpones(row: Row, prep: Prep, closedAt: Option<int>, now: int, replayed: bool, qualified: bool)
    ensures var r := Reconciled(row, prep, closedAt, now, replayed, qualified);
            r.Some? ==> Due(r.value) <= Due(row)
    ensures Reconciled(row, prep, closedAt, now, replayed, qualified) == None ==>
              now >= Due(Judged(row, prep, closedAt, now, replayed, qualified)) + DAYS90
  {
    var replay := if replayed then Marked(row.(state := Deleted), now, false) else row;
    MarkedNeverPostpones(row, now, false, Deleted);
    RecordedNeverPostpones(replay, prep, closedAt);
    var recorded := Recorded(replay, prep, closedAt);
    MarkedNeverPostpones(recorded, now, true, Quarantined);
  }
}
