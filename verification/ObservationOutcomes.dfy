/**
 What the commands of the observation store achieve: when they succeed, what a
 reader sees afterwards, what a reconcile must keep, and what never comes back.
 */
module ObservationOutcomes {
  import opened Wrappers
  import opened ObservationRows
  import opened ObservationStore

  // ----- reading

  /** What a reader of one record is told, and whether the payload is part of it. */
  function Read(s: Store, row: Row, now: int, reviewed: bool, go: bool): Result<(Availability, bool), Error> {
    var state := StateAt(row, now);
    if s.closedAt.Some? then Ok((Gone(Quarantined), false))
    else if state != Open && state != Held then Ok((state, false))
    else if LivePreparation(s, row.prep, now, go).Some? then Ok((Gone(Quarantined), false))
    else if state == Held && !reviewed then Ok((Held, false))
    else if row.payload then Ok((state, true))
    else Err(SourceUnavailable)
  }

  predicate Shows(s: Store, row: Row, now: int, reviewed: bool, go: bool) {
    Read(s, row, now, reviewed, go).Ok? && Read(s, row, now, reviewed, go).value.1
  }

  /** Everything new work on a preparation depends on. */
  predicate Usable(s: Store, prep: int, now: int) {
    && prep in s.preps && s.preps[prep].revokedAt.None? && now < s.preps[prep].validUntil
    && s.closedAt.None? && s.ready && !MaintenanceRequired(s.rows, now)
  }

  lemma UsableExactly(s: Store, prep: int, now: int, go: bool)
    ensures LivePreparation(s, prep, now, go).None? <==> go && Usable(s, prep, now)
  {}

  /** The payload is shown exactly while it is there, not gone, of a usable preparation, and not expired or reviewed under a hold. */
  lemma ShownExactly(s: Store, row: Row, now: int, reviewed: bool, go: bool)
    ensures Shows(s, row, now, reviewed, go) <==>
              && row.payload && row.state == Available && go && Usable(s, row.prep, now)
              && if HoldActive(row, now) then reviewed else now < row.expiresAt
  {
    UsableExactly(s, row.prep, now, go);
  }

  // ----- preparations and acceptance

  /** A preparation is recorded exactly behind an open gate, under a new name, for at most 30 days, and starts unrevoked. */
  lemma PreparedExactly(s: Store, ref: int, validUntil: int, retention: int, now: int, go: bool)
    ensures var r := Perform(s, Command(Prepare(ref, validUntil, retention), now, go));
            && (r.Ok? <==>
                  && go && ref !in s.preps && retention > 0 && now < validUntil <= now + 30 * DAY
                  && s.closedAt.None? && s.ready && !MaintenanceRequired(s.rows, now))
            && (r.Ok? ==> r.value == s.(preps := s.preps + map[ref := Prep(validUntil, retention, None)]))
  {}

  lemma Indexed(rows: seq<Row>, id: int)
    ensures Index(rows, id) == |rows| <==> forall k :: 0 <= k < |rows| ==> rows[k].id != id
  {}

  /** A record is accepted exactly under a usable preparation and a new id, and is then open exactly for its retention period. */
  lemma AcceptedExactly(s: Store, prep: int, id: int, now: int, go: bool, later: int)
    ensures var r := Perform(s, Command(Accept(prep, id), now, go));
            && (r.Ok? <==> go && Usable(s, prep, now) && forall k :: 0 <= k < |s.rows| ==> s.rows[k].id != id)
            && (r.Ok? ==>
                  && |r.value.rows| == |s.rows| + 1 && r.value.rows[..|s.rows|] == s.rows
                  && r.value.(rows := s.rows) == s
                  && var row := r.value.rows[|s.rows|];
                     && row.id == id && row.prep == prep && row.payload
                     && StateAt(row, later) == if later < now + s.preps[prep].retention then Open else Expired)
  {
    UsableExactly(s, prep, now, go);
    Indexed(s.rows, id);
  }

  // ----- the lifecycle commands on one record

  predicate UniqueIds(rows: seq<Row>) {
    forall i, j :: 0 <= i < j < |rows| ==> rows[i].id != rows[j].id
  }

  /** A hold is refused exactly outside its conditions, and is then in force exactly until its end. */
  lemma HeldExactly(row: Row, until: int, now: int, later: int)
    ensures var r := HoldRow(row, until, now);
            && (r.Ok? <==>
                  && row.payload && row.state == Available && (HoldActive(row, now) || now < row.expiresAt)
                  && now < until <= now + 30 * DAY && row.holdGeneration < MAX_HOLD_GENERATION)
            && (r.Ok? ==>
                  && StateAt(r.value, later) == (if later < until then Held else if later >= row.expiresAt then Expired else Open)
                  && r.value.holdGeneration == row.holdGeneration + 1
                  && r.value.payload == row.payload && r.value.unavailableAt == row.unavailableAt)
  {}

  /** Deleting shows at once and leaves an unrevoked hold running; quarantining ends it. */
  lemma DeletedOrQuarantined(row: Row, prep: Prep, closedAt: Option<int>, now: int, later: int)
    ensures StateAt(DeleteRow(row, prep, closedAt, now), later) == Gone(Deleted)
    ensures DeleteRow(row, prep, closedAt, now).holdUntil == if prep.revokedAt.Some? then None else row.holdUntil
    ensures StateAt(QuarantineRow(row, prep, closedAt, now), later) == Gone(Quarantined)
    ensures QuarantineRow(row, prep, closedAt, now).holdUntil == None
  {}

  /** A release ends a hold in force: an available record falls back to its own retention period. */
  lemma ReleasedExactly(row: Row, prep: Prep, closedAt: Option<int>, now: int, later: int)
    requires row.holdUntil.Some? ==> row.holdStartedAt.Some? && row.holdStartedAt.value <= now
    ensures var r := ReleaseRow(row, prep, closedAt, now);
            && (r.Ok? <==> HoldActive(row, now) && prep.revokedAt.None?)
            && (r.Ok? ==>
                  && r.value.holdUntil == None
                  && r.value.state == (if closedAt.Some? then Quarantined else row.state)
                  && (row.state == Available && closedAt.None? ==>
                        StateAt(r.value, later) == (if later >= row.expiresAt then Expired else Open))
                  && (row.state == Available && closedAt.None? && now < row.expiresAt ==> r.value.unavailableAt == row.unavailableAt))
  {}

  /** Deleting and quarantining are never refused for the gate, the context or the preparation, and change exactly the addressed record. */
  lemma {:induction false} RemovalIsNeverRefused(s: Store, k: nat, now: int)
    requires UniqueIds(s.rows) && k < |s.rows| && s.rows[k].prep in s.preps
    ensures var p, row := s.preps[s.rows[k].prep], s.rows[k];
            && Perform(s, Command(Delete(row.id), now, true)) == Ok(s.(rows := s.rows[k := DeleteRow(row, p, s.closedAt, now)]))
            && Perform(s, Command(Quarantine(row.id), now, true)) == Ok(s.(rows := s.rows[k := QuarantineRow(row, p, s.closedAt, now)]))
  {
    IndexIs(s.rows, k);
  }

  lemma IndexIs(rows: seq<Row>, k: nat)
    requires UniqueIds(rows) && k < |rows|
    ensures Index(rows, rows[k].id) == k
  {
    Indexed(rows, rows[k].id);
  }

  /** A hold needs, beside what the record itself needs, a usable preparation; a release needs neither gate nor preparation. */
  lemma {:induction false} HeldOrReleased(s: Store, k: nat, until: int, now: int)
    requires UniqueIds(s.rows) && k < |s.rows| && s.rows[k].prep in s.preps
    ensures var p, row := s.preps[s.rows[k].prep], s.rows[k];
            var held, released := Perform(s, Command(Hold(row.id, until), now, true)), Perform(s, Command(Release(row.id), now, true));
            && (held.Ok? <==> Usable(s, row.prep, now) && HoldRow(row, until, now).Ok?)
            && (held.Ok? ==> held.value == s.(rows := s.rows[k := HoldRow(row, until, now).value]))
            && (released.Ok? <==> ReleaseRow(row, p, s.closedAt, now).Ok?)
            && (released.Ok? ==> released.value == s.(rows := s.rows[k := ReleaseRow(row, p, s.closedAt, now).value]))
  {
    IndexIs(s.rows, k);
    UsableExactly(s, s.rows[k].prep, now, true);
  }

  // ----- since when a record counts as unavailable

  /** A record falls due when it was last usable: at the first of expiry and cause, or at the end of its hold if that is later. */
  lemma FirstCauseCounts(row: Row, at: int, endHold: bool)
    requires row.unavailableAt.None? && (row.holdUntil.Some? ==> row.holdStartedAt.Some? && row.holdStartedAt.value <= at)
    ensures var end := Min(row.expiresAt, at);
            Due(Marked(row, at, endHold))
            == if row.holdUntil.None? then end
               else Max(end, if endHold then Min(row.holdUntil.value, at) else row.holdUntil.value)
  {}

  /** Of several causes on record the earliest counts, whichever was found first. */
  lemma EarliestCauseCounts(row: Row, prep: Prep, closedAt: Option<int>)
    requires row.unavailableAt.None? && row.holdUntil.None? && (closedAt.Some? || prep.revokedAt.Some?)
    ensures var cause := if closedAt.None? then prep.revokedAt.value
                         else if prep.revokedAt.None? then closedAt.value else Min(closedAt.value, prep.revokedAt.value);
            Recorded(row, prep, closedAt) == row.(state := Quarantined, unavailableAt := Some(Min(row.expiresAt, cause)))
  {}

  /** Once its hold is consumed no later cause moves that time, in either direction. */
  lemma LaterCausesDoNotCount(row: Row, at: int, again: int, endHold: bool, state: RecordState)
    requires at <= again && (row.holdUntil.Some? ==> row.holdStartedAt.Some? && row.holdStartedAt.value <= at)
    ensures var marked := Marked(row, at, true);
            Due(Marked(marked.(state := state), again, endHold)) == Due(marked)
  {}

  // ----- what a reconcile keeps

  /** Exactly which payloads a reconcile keeps. */
  predicate KeepsPayload(row: Row, prep: Prep, closedAt: Option<int>, now: int, replayed: bool, qualified: bool) {
    && row.payload && prep.revokedAt.None?
    && if row.state != Available || replayed || closedAt.Some? then HoldActive(row, now)
       else qualified && (HoldActive(row, now) || (now < row.expiresAt && now < prep.validUntil))
  }

  lemma PayloadKeptExactly(row: Row, prep: Prep, closedAt: Option<int>, now: int, replayed: bool, qualified: bool)
    ensures var r := Reconciled(row, prep, closedAt, now, replayed, qualified);
            r.Some? && r.value.payload <==> KeepsPayload(row, prep, closedAt, now, replayed, qualified)
  {}

  /** An available record that is held, or open under a preparation still valid, is kept as it is. */
  predicate Sound(row: Row, prep: Prep, now: int) {
    && row.state == Available && row.payload && prep.revokedAt.None?
    && (HoldActive(row, now) || (now < row.expiresAt && now < prep.validUntil))
  }

  lemma SoundIsKept(row: Row, prep: Prep, now: int)
    requires Sound(row, prep, now)
    ensures Reconciled(row, prep, None, now, false, true) == Some(row)
  {}

  /** A record without cause for removal leaves the store only 90 days after it fell due. */
  lemma RemovedExactly(row: Row, prep: Prep, closedAt: Option<int>, now: int, replayed: bool, qualified: bool)
    ensures var judged := Judged(row, prep, closedAt, now, replayed, qualified);
            Reconciled(row, prep, closedAt, now, replayed, qualified) == None
            <==> !KeepsPayload(row, prep, closedAt, now, replayed, qualified)
                 && StateAt(judged, now) != Open && !HoldActive(judged, now)
                 && now >= Due(judged) + 90 * DAY
  {}

  lemma {:induction false} PresentKeeps<T>(options: seq<Option<T>>, j: nat)
    requires j < |options| && options[j].Some?
    ensures options[j].value in Present(options)
  {
    if j < |options| - 1 {
      PresentKeeps(options[..|options| - 1], j);
    }
  }

  /** Over the store: what is sound in an open context stays, unchanged and with its preparation. */
  lemma {:induction false} ReconcileKeepsTheSound(s: Store, now: int, replay: set<int>, qualified: set<int>, j: nat)
    requires j < |s.rows| && s.rows[j].prep in s.preps && s.closedAt.None?
    requires Sound(s.rows[j], s.preps[s.rows[j].prep], now) && s.rows[j].id !in replay && s.rows[j].id in qualified
    ensures var t := ReconcileStore(s, now, replay, qualified);
            && s.rows[j] in t.rows
            && s.rows[j].prep in t.preps && t.preps[s.rows[j].prep] == s.preps[s.rows[j].prep]
  {
    var row := s.rows[j];
    SoundIsKept(row, s.preps[row.prep], now);
    var outcomes := Outcomes(s, s.rows, now, replay, qualified);
    assert outcomes[j] == Some(row);
    PresentKeeps(outcomes, j);
    var rows := ReconcileRows(s, s.rows, now, replay, qualified);
    assert row in rows;
    var i :| 0 <= i < |rows| && rows[i] == row;
    assert rows[i].prep == row.prep;
  }

  /** A reconcile is refused exactly for a replayed id that names no record; a context is closed once. */
  lemma ReconciledOrClosed(s: Store, now: int, replay: set<int>, qualified: set<int>)
    ensures Perform(s, Command(Reconcile(replay, qualified), now, true)).Ok? <==>
              forall id :: id in replay ==> exists k :: 0 <= k < |s.rows| && s.rows[k].id == id
    ensures Perform(s, Command(Close, now, true)) == if s.closedAt.None? then Ok(s.(closedAt := Some(now))) else Err(ContextUnavailable)
  {
    forall id
      ensures Index(s.rows, id) < |s.rows| <==> exists k :: 0 <= k < |s.rows| && s.rows[k].id == id
    {
      Indexed(s.rows, id);
    }
  }

  /** Afterwards the gate is open exactly in an open context, and a preparation is left while a record needs it or for 90 days after its end. */
  lemma ReconciledStore(s: Store, now: int, replay: set<int>, qualified: set<int>, p: int)
    ensures var t := ReconcileStore(s, now, replay, qualified);
            && (t.ready <==> s.closedAt.None?) && t.closedAt == s.closedAt
            && (p in t.preps <==>
                  && p in s.preps
                  && (|| now < (if s.preps[p].revokedAt.Some? then s.preps[p].revokedAt.value else s.preps[p].validUntil) + 90 * DAY
                      || exists k :: 0 <= k < |t.rows| && t.rows[k].prep == p))
            && (p in t.preps ==> t.preps[p] == s.preps[p])
  {}

  // ----- what is so of one id stays so

  /** Every record with this id is gone (and, if purged, without its payload). */
  predicate IsGone(s: Store, id: int, purged: bool) {
    forall k :: 0 <= k < |s.rows| && s.rows[k].id == id ==> s.rows[k].state != Available && (purged ==> !s.rows[k].payload)
  }

  lemma ChangedStaysGone(row: Row, op: Op, refusal: Option<Error>, p: Prep, closedAt: Option<int>, now: int)
    requires op.Hold? || op.Release? || op.Delete? || op.Quarantine?
    requires row.state != Available
    ensures var r := ChangedRow(row, op, refusal, p, closedAt, now);
            r.Ok? ==> r.value.state != Available && r.value.id == row.id && (!row.payload ==> !r.value.payload)
  {}

  lemma ChangedKeepsId(row: Row, op: Op, refusal: Option<Error>, p: Prep, closedAt: Option<int>, now: int)
    requires op.Hold? || op.Release? || op.Delete? || op.Quarantine?
    ensures var r := ChangedRow(row, op, refusal, p, closedAt, now); r.Ok? ==> r.value.id == row.id && r.value.prep == row.prep
  {}

  lemma ReconciledStaysGone(row: Row, prep: Prep, closedAt: Option<int>, now: int, replayed: bool, qualified: bool)
    ensures var r := Reconciled(row, prep, closedAt, now, replayed, qualified);
            r.Some? ==> && r.value.id == row.id && r.value.prep == row.prep
                        && (row.state != Available ==> r.value.state != Available)
                        && (!row.payload ==> !r.value.payload)
  {}

  lemma LifecycleStaysGone(s: Store, c: Command, at: int, id: int, purged: bool)
    requires IsGone(s, id, purged) && (c.op.Hold? || c.op.Release? || c.op.Delete? || c.op.Quarantine?)
    ensures var r := Lifecycle(s, at, c.op, c.now, c.go); r.Ok? ==> IsGone(r.value, id, purged)
  {
    var k := Index(s.rows, at);
    if k < |s.rows| && s.rows[k].prep in s.preps {
      var p, refusal := s.preps[s.rows[k].prep], LivePreparation(s, s.rows[k].prep, c.now, c.go);
      ChangedKeepsId(s.rows[k], c.op, refusal, p, s.closedAt, c.now);
      if s.rows[k].state != Available {
        ChangedStaysGone(s.rows[k], c.op, refusal, p, s.closedAt, c.now);
      }
    }
  }

  lemma StepStaysGone(s: Store, c: Command, id: int, purged: bool)
    requires IsGone(s, id, purged) && !(c.op.Accept? && c.op.id == id)
    ensures IsGone(Apply(s, c), id, purged)
  {
    match c.op {
      case Hold(at, _) => LifecycleStaysGone(s, c, at, id, purged);
      case Release(at) => LifecycleStaysGone(s, c, at, id, purged);
      case Delete(at) => LifecycleStaysGone(s, c, at, id, purged);
      case Quarantine(at) => LifecycleStaysGone(s, c, at, id, purged);
      case Reconcile(replay, qualified) => ReconcileStaysGone(s, c.now, replay, qualified, id, purged);
      case _ =>
    }
  }

  lemma ReconcileStaysGone(s: Store, now: int, replay: set<int>, qualified: set<int>, id: int, purged: bool)
    requires IsGone(s, id, purged)
    ensures IsGone(ReconcileStore(s, now, replay, qualified), id, purged)
  {
    var outcomes := Outcomes(s, s.rows, now, replay, qualified);
    forall k | 0 <= k < |Present(outcomes)| && Present(outcomes)[k].id == id
      ensures Present(outcomes)[k].state != Available && (purged ==> !Present(outcomes)[k].payload)
    {
      var j := PresentOrigin(outcomes, k);
      if s.rows[j].prep in s.preps {
        ReconciledStaysGone(s.rows[j], s.preps[s.rows[j].prep], s.closedAt, now, s.rows[j].id in replay, s.rows[j].id in qualified);
      }
    }
  }

  /** What was deleted or quarantined never becomes available again, and what was purged never has a payload again. */
  lemma {:induction false} GoneStaysGone(s: Store, cs: seq<Command>, id: int, purged: bool)
    requires IsGone(s, id, purged)
    requires forall k :: 0 <= k < |cs| ==> !(cs[k].op.Accept? && cs[k].op.id == id)
    ensures IsGone(Run(s, cs), id, purged)
    decreases |cs|
  {
    if cs != [] {
      StepStaysGone(s, cs[0], id, purged);
      GoneStaysGone(Apply(s, cs[0]), cs[1..], id, purged);
    }
  }

  // ----- every id names one record

  lemma {:induction false} PresentIsUnique(options: seq<Option<Row>>)
    requires forall i, j :: 0 <= i < j < |options| && options[i].Some? && options[j].Some? ==> options[i].value.id != options[j].value.id
    ensures UniqueIds(Present(options))
  {
    if options != [] {
      var front := options[..|options| - 1];
      PresentIsUnique(front);
      forall k | 0 <= k < |Present(front)| && options[|options| - 1].Some?
        ensures Present(front)[k].id != options[|options| - 1].value.id
      {
        var j := PresentOrigin(front, k);
        assert options[j] == front[j];
      }
    }
  }

  lemma StepKeepsUniqueIds(s: Store, c: Command)
    requires UniqueIds(s.rows)
    ensures UniqueIds(Apply(s, c).rows)
  {
    match c.op {
      case Hold(at, _) => LifecycleKeepsUniqueIds(s, c, at);
      case Release(at) => LifecycleKeepsUniqueIds(s, c, at);
      case Delete(at) => LifecycleKeepsUniqueIds(s, c, at);
      case Quarantine(at) => LifecycleKeepsUniqueIds(s, c, at);
      case Reconcile(replay, qualified) => ReconcileKeepsUniqueIds(s, c.now, replay, qualified);
      case _ =>
    }
  }

  lemma LifecycleKeepsUniqueIds(s: Store, c: Command, at: int)
    requires UniqueIds(s.rows) && (c.op.Hold? || c.op.Release? || c.op.Delete? || c.op.Quarantine?)
    ensures var r := Lifecycle(s, at, c.op, c.now, c.go); r.Ok? ==> UniqueIds(r.value.rows)
  {
    var k := Index(s.rows, at);
    if k < |s.rows| && s.rows[k].prep in s.preps {
      ChangedKeepsId(s.rows[k], c.op, LivePreparation(s, s.rows[k].prep, c.now, c.go), s.preps[s.rows[k].prep], s.closedAt, c.now);
    }
  }

  lemma ReconcileKeepsUniqueIds(s: Store, now: int, replay: set<int>, qualified: set<int>)
    requires UniqueIds(s.rows)
    ensures UniqueIds(ReconcileStore(s, now, replay, qualified).rows)
  {
    var outcomes := Outcomes(s, s.rows, now, replay, qualified);
    forall i | 0 <= i < |outcomes| && outcomes[i].Some?
      ensures outcomes[i].value.id == s.rows[i].id
    {
      if s.rows[i].prep in s.preps {
        ReconciledStaysGone(s.rows[i], s.preps[s.rows[i].prep], s.closedAt, now, s.rows[i].id in replay, s.rows[i].id in qualified);
      }
    }
    PresentIsUnique(outcomes);
  }

  /** In every reachable store an id names one record. */
  lemma {:induction false} IdsAreUnique(s: Store, cs: seq<Command>)
    requires UniqueIds(s.rows)
    ensures UniqueIds(Run(s, cs).rows)
    decreases |cs|
  {
    if cs != [] {
      StepKeepsUniqueIds(s, cs[0]);
      IdsAreUnique(Apply(s, cs[0]), cs[1..]);
    }
  }

  /**
   Deleting, end to end: a record of a reachable store that is deleted or quarantined is
   never shown again, whatever commands follow, not even before its payload is purged.
   */
  lemma {:induction false} DeletedIsNeverShown(before: seq<Command>, c: Command, after: seq<Command>, k: nat, now: int, reviewed: bool, go: bool)
    requires (c.op.Delete? || c.op.Quarantine?) && Perform(Run(EMPTY, before), c).Ok?
    requires forall j :: 0 <= j < |after| ==> !(after[j].op.Accept? && after[j].op.id == c.op.id)
    requires var s := Run(Apply(Run(EMPTY, before), c), after); k < |s.rows| && s.rows[k].id == c.op.id
    ensures var s := Run(Apply(Run(EMPTY, before), c), after);
            StateAt(s.rows[k], now).Gone? && !Shows(s, s.rows[k], now, reviewed, go)
  {
    var s0 := Run(EMPTY, before);
    IdsAreUnique(EMPTY, before);
    var i := Index(s0.rows, c.op.id);
    var p := s0.preps[s0.rows[i].prep];
    var s1 := Apply(s0, c);
    DeletedOrQuarantined(s0.rows[i], p, s0.closedAt, c.now, c.now);
    assert s1.rows == s0.rows[i := s1.rows[i]] && s1.rows[i].state != Available;
    assert IsGone(s1, c.op.id, false);
    GoneStaysGone(s1, after, c.op.id, false);
    var s := Run(s1, after);
    ShownExactly(s, s.rows[k], now, reviewed, go);
  }

  // ----- revocation, closing and the gate

  predicate IsRevoked(s: Store, prep: int) { prep in s.preps ==> s.preps[prep].revokedAt.Some? }

  lemma StepStaysRevoked(s: Store, c: Command, prep: int)
    requires IsRevoked(s, prep) && !(c.op.Prepare? && c.op.ref == prep)
    ensures IsRevoked(Apply(s, c), prep)
  {}

  lemma {:induction false} StaysRevoked(s: Store, cs: seq<Command>, prep: int)
    requires IsRevoked(s, prep)
    requires forall k :: 0 <= k < |cs| ==> !(cs[k].op.Prepare? && cs[k].op.ref == prep)
    ensures IsRevoked(Run(s, cs), prep)
    decreases |cs|
  {
    if cs != [] {
      StepStaysRevoked(s, cs[0], prep);
      StaysRevoked(Apply(s, cs[0]), cs[1..], prep);
    }
  }

  /**
   A revoked preparation is done with: whatever follows, nothing is accepted under it, no
   record of it is held or shown, and a reconcile leaves none of them a payload.
   */
  lemma {:induction false} RevokedIsDone(s: Store, prep: int, at: int, after: seq<Command>, now: int, id: int, until: int, go: bool, row: Row, reviewed: bool)
    requires Perform(s, Command(Revoke(prep), at, true)).Ok? && row.prep == prep
    requires forall k :: 0 <= k < |after| ==> !(after[k].op.Prepare? && after[k].op.ref == prep)
    ensures var t := Run(Apply(s, Command(Revoke(prep), at, true)), after);
            && Perform(t, Command(Accept(prep, id), now, go)).Err?
            && !Shows(t, row, now, reviewed, go)
            && (prep in t.preps ==> LifecycleRow(t, row, Hold(id, until), now, go).Err?)
            && (prep in t.preps ==> forall replayed, qualified ::
                  !KeepsPayload(row, t.preps[prep], t.closedAt, now, replayed, qualified))
  {
    var t := Run(Apply(s, Command(Revoke(prep), at, true)), after);
    StaysRevoked(Apply(s, Command(Revoke(prep), at, true)), after, prep);
    UsableExactly(t, prep, now, go);
    ShownExactly(t, row, now, reviewed, go);
  }

  /** The first revocation counts: it can be repeated, but its time stays as long as the preparation is there. */
  lemma {:induction false} FirstRevocationCounts(s: Store, prep: int, at: int, after: seq<Command>)
    requires prep in s.preps && s.preps[prep].revokedAt.None?
    requires forall k :: 0 <= k < |after| ==> !(after[k].op.Prepare? && after[k].op.ref == prep)
    ensures Perform(s, Command(Revoke(prep), at, true)).Ok?
    ensures var t := Run(Apply(s, Command(Revoke(prep), at, true)), after);
            prep in t.preps ==> t.preps[prep] == s.preps[prep].(revokedAt := Some(at))
  {
    RevocationStays(Apply(s, Command(Revoke(prep), at, true)), prep, s.preps[prep].(revokedAt := Some(at)), after);
  }

  lemma {:induction false} RevocationStays(s: Store, prep: int, p: Prep, after: seq<Command>)
    requires p.revokedAt.Some? && (prep in s.preps ==> s.preps[prep] == p)
    requires forall k :: 0 <= k < |after| ==> !(after[k].op.Prepare? && after[k].op.ref == prep)
    ensures var t := Run(s, after); prep in t.preps ==> t.preps[prep] == p
    decreases |after|
  {
    if after != [] {
      RevocationStepStays(s, prep, p, after[0]);
      RevocationStays(Apply(s, after[0]), prep, p, after[1..]);
    }
  }

  lemma RevocationStepStays(s: Store, prep: int, p: Prep, c: Command)
    requires p.revokedAt.Some? && (prep in s.preps ==> s.preps[prep] == p) && !(c.op.Prepare? && c.op.ref == prep)
    ensures prep in Apply(s, c).preps ==> Apply(s, c).preps[prep] == p
  {}

  lemma StaysClosed(s: Store, c: Command)
    requires s.closedAt.Some?
    ensures Apply(s, c).closedAt == s.closedAt
  {}

  /** A closed context is closed at the same time forever: nothing is prepared, accepted or shown in it. */
  lemma {:induction false} ClosedIsFinal(s: Store, cs: seq<Command>, now: int, ref: int, validUntil: int, retention: int, prep: int, id: int, go: bool, row: Row, reviewed: bool)
    requires s.closedAt.Some?
    ensures var t := Run(s, cs);
            && t.closedAt == s.closedAt
            && Perform(t, Command(Prepare(ref, validUntil, retention), now, go)).Err?
            && Perform(t, Command(Accept(prep, id), now, go)).Err?
            && !Shows(t, row, now, reviewed, go)
    decreases |cs|
  {
    if cs == [] {
      ShownExactly(s, row, now, reviewed, go);
    } else {
      StaysClosed(s, cs[0]);
      ClosedIsFinal(Apply(s, cs[0]), cs[1..], now, ref, validUntil, retention, prep, id, go, row, reviewed);
    }
  }

  /**
   Every process starts closed, and a suspension closes it: until the next reconcile nothing
   is prepared, accepted or shown.
   */
  lemma {:induction false} ClosedUntilReconcile(s: Store, c: Command, cs: seq<Command>, now: int, ref: int, validUntil: int, retention: int, prep: int, id: int, go: bool, row: Row, reviewed: bool)
    requires c.op.Restart? || c.op.Suspend?
    requires forall k :: 0 <= k < |cs| ==> !cs[k].op.Reconcile?
    ensures var t := Run(Apply(s, c), cs);
            && !t.ready
            && Perform(t, Command(Prepare(ref, validUntil, retention), now, go)).Err?
            && Perform(t, Command(Accept(prep, id), now, go)).Err?
            && !Shows(t, row, now, reviewed, go)
  {
    StaysUnready(Apply(s, c), cs);
    var t := Run(Apply(s, c), cs);
    ShownExactly(t, row, now, reviewed, go);
  }

  lemma {:induction false} StaysUnready(s: Store, cs: seq<Command>)
    requires !s.ready && forall k :: 0 <= k < |cs| ==> !cs[k].op.Reconcile?
    ensures !Run(s, cs).ready
    decreases |cs|
  {
    if cs != [] {
      StaysUnready(Apply(s, cs[0]), cs[1..]);
    }
  }

  // ----- an accepted record, end to end

  /** Commands that neither address this record or its preparation nor find a fault with them. */
  predicate Spares(c: Command, row: Row, prep: Prep) {
    match c.op
    case Hold(id, _) => id != row.id
    case Release(id) => id != row.id
    case Delete(id) => id != row.id
    case Quarantine(id) => id != row.id
    case Revoke(p) => p != row.prep
    case Close => false
    case Reconcile(replay, qualified) =>
      row.id !in replay && row.id in qualified && c.now < row.expiresAt && c.now < prep.validUntil
    case _ => true
  }

  /** The record is in the store as it was accepted, and its preparation with it. */
  predicate Keeps(s: Store, row: Row, prep: Prep) {
    s.closedAt.None? && row in s.rows && row.prep in s.preps && s.preps[row.prep] == prep
  }

  lemma LifecycleSpares(s: Store, c: Command, at: int, row: Row, prep: Prep)
    requires Keeps(s, row, prep) && at != row.id && (c.op.Hold? || c.op.Release? || c.op.Delete? || c.op.Quarantine?)
    ensures var r := Lifecycle(s, at, c.op, c.now, c.go); r.Ok? ==> Keeps(r.value, row, prep)
  {
    var k := Index(s.rows, at);
    var i :| 0 <= i < |s.rows| && s.rows[i] == row;
    var r := Lifecycle(s, at, c.op, c.now, c.go);
    if r.Ok? {
      assert r.value.rows[i] == row;
    }
  }

  lemma StepSpares(s: Store, c: Command, row: Row, prep: Prep)
    requires Keeps(s, row, prep) && Spares(c, row, prep)
    requires row.state == Available && row.payload && prep.revokedAt.None?
    ensures Keeps(Apply(s, c), row, prep)
  {
    match c.op {
      case Hold(at, _) => LifecycleSpares(s, c, at, row, prep);
      case Release(at) => LifecycleSpares(s, c, at, row, prep);
      case Delete(at) => LifecycleSpares(s, c, at, row, prep);
      case Quarantine(at) => LifecycleSpares(s, c, at, row, prep);
      case Reconcile(replay, qualified) =>
        var j :| 0 <= j < |s.rows| && s.rows[j] == row;
        ReconcileKeepsTheSound(s, c.now, replay, qualified, j);
      case _ =>
    }
  }

  lemma {:induction false} RunSpares(s: Store, cs: seq<Command>, row: Row, prep: Prep)
    requires Keeps(s, row, prep) && row.state == Available && row.payload && prep.revokedAt.None?
    requires forall k :: 0 <= k < |cs| ==> Spares(cs[k], row, prep)
    ensures Keeps(Run(s, cs), row, prep)
    decreases |cs|
  {
    if cs != [] {
      StepSpares(s, cs[0], row, prep);
      RunSpares(Apply(s, cs[0]), cs[1..], row, prep);
    }
  }

  /**
   Whatever is done to other records and preparations, and however often the store is
   reconciled meanwhile, an accepted record stays as it is, and whenever the gate is open it
   is shown exactly until its retention period or its preparation ends.
   */
  lemma {:induction false} AcceptedIsShownUntilItExpires(s: Store, prep: int, id: int, at: int, cs: seq<Command>, now: int, reviewed: bool)
    requires Perform(s, Command(Accept(prep, id), at, true)).Ok?
    requires var row := NewRow(id, prep, s.preps[prep], at);
             forall k :: 0 <= k < |cs| ==> Spares(cs[k], row, s.preps[prep])
    requires var t := Run(Apply(s, Command(Accept(prep, id), at, true)), cs); t.ready && !MaintenanceRequired(t.rows, now)
    ensures var t := Run(Apply(s, Command(Accept(prep, id), at, true)), cs);
            var row := NewRow(id, prep, s.preps[prep], at);
            && row in t.rows
            && (Shows(t, row, now, reviewed, true) <==> now < at + s.preps[prep].retention && now < s.preps[prep].validUntil)
  {
    var row, s1 := NewRow(id, prep, s.preps[prep], at), Apply(s, Command(Accept(prep, id), at, true));
    AcceptedExactly(s, prep, id, at, true, now);
    assert s1.rows[|s.rows|] == row;
    RunSpares(s1, cs, row, s.preps[prep]);
    ShownExactly(Run(s1, cs), row, now, reviewed, true);
  }

  /** A reconcile of an open context opens the gate, and keeps it open for a day of any commands but a restart or a suspension. */
  lemma {:induction false} ReconcileOpensTheGate(from: int, before: seq<Command>, T: int, replay: set<int>, qualified: set<int>, later: seq<Command>, now: int)
    requires Ordered(before, from) && LastTime(before, from) <= T
    requires Run(EMPTY, before).closedAt.None?
    requires Perform(Run(EMPTY, before), Command(Reconcile(replay, qualified), T, true)).Ok?
    requires Ordered(later, T) && LastTime(later, T) <= now < T + DAY
    requires forall k :: 0 <= k < |later| ==> !later[k].op.Restart? && !later[k].op.Suspend? && !later[k].op.Close?
    ensures var s := Run(Apply(Run(EMPTY, before), Command(Reconcile(replay, qualified), T, true)), later);
            Control(s, now) == None
  {
    NotOverdueWithinADay(from, before, T, replay, qualified, later, now);
    StaysReady(Apply(Run(EMPTY, before), Command(Reconcile(replay, qualified), T, true)), later);
  }

  lemma {:induction false} StaysReady(s: Store, cs: seq<Command>)
    requires s.ready && s.closedAt.None?
    requires forall k :: 0 <= k < |cs| ==> !cs[k].op.Restart? && !cs[k].op.Suspend? && !cs[k].op.Close?
    ensures Run(s, cs).ready && Run(s, cs).closedAt.None?
    decreases |cs|
  {
    if cs != [] {
      StaysReady(Apply(s, cs[0]), cs[1..]);
    }
  }
}
