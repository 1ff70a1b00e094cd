/**
 What every run of commands on the task tables keeps: the budget covers everything
 held and everything selected, holds and history only grow, and approval is never regained.
 */
module TaskLedger {
  import opened Wrappers
  import opened TaskRows

  // ----- the shape of a version's history

  /** The kinds of the version's events, in order. */
  function History(events: seq<Event>, version: nat): seq<Kind> {
    if events == [] then []
    else
      var e := Last(events);
      History(events[..|events| - 1], version) + (if e.version == version then [e.kind] else [])
  }

  /** Created, then perhaps approved at once, then pauses and (only after an approval) revocations; a cancellation ends it. */
  predicate Shape(ks: seq<Kind>) {
    && ks != [] && ks[0] == VersionCreated
    && (forall i :: 0 < i < |ks| ==> ks[i] != VersionCreated)
    && (forall i :: 0 < i < |ks| && ks[i] == Approved ==> i == 1)
    && (forall i :: 0 < i < |ks| && ks[i] == Revoked ==> i > 1 && ks[1] == Approved)
    && (forall i :: 0 <= i < |ks| - 1 ==> ks[i] != Cancelled)
  }

  // ----- one task

  ghost predicate BudgetInv(t: Task) {
    && t.versions != []
    && (forall v :: 0 <= v < |t.versions| ==> Bounded(t.versions[v].limit, t.versions[v].members))
    && |PlansOf(t.held) + SetOf(Last(t.versions).members)| <= Last(t.versions).limit
  }

  ghost predicate HoldsInv(t: Task) {
    && InSlots(t.held)
    && (forall i :: 0 <= i < |t.held| ==> HeldFor(t, t.held[i].plan, t.held[i].firstVersion))
    && (forall p, v :: HeldFor(t, p, v) ==> p in PlansOf(t.held))
  }

  /** The version selects the plan and was approved. */
  ghost predicate HeldFor(t: Task, p: Plan, v: nat) {
    1 <= v <= |t.versions| && p in t.versions[v - 1].members && Has(t.events, v, Approved)
  }

  /** Versions and times never go back, and nothing follows a cancellation. */
  ghost predicate OrderInv(t: Task) {
    && |t.versions| <= |t.events| <= MAX_EVENTS && |t.versions| <= MAX_VERSIONS
    && (forall i :: 0 <= i < |t.events| ==> 1 <= t.events[i].version <= |t.versions|)
    && (forall i, j :: 0 <= i < j < |t.events| ==>
          t.events[i].version <= t.events[j].version && t.events[i].recordedAt <= t.events[j].recordedAt)
    && (forall i :: 0 <= i < |t.events| ==> t.versions[t.events[i].version - 1].recordedAt <= t.events[i].recordedAt)
    && (forall i :: 0 <= i < |t.events| - 1 ==> t.events[i].kind != Cancelled)
  }

  ghost predicate ShapeInv(versions: nat, events: seq<Event>) {
    forall v :: 1 <= v <= versions ==> Shape(History(events, v))
  }

  ghost predicate TaskInv(t: Task) {
    BudgetInv(t) && HoldsInv(t) && OrderInv(t) && ShapeInv(|t.versions|, t.events)
  }

  ghost predicate Inv(db: Tables) {
    && (forall id :: id in db ==> TaskInv(db[id]))
    && (forall id, p :: id in db && Selects(db[id], p) ==> !BoundElsewhere(db, id, p))
    && (forall c: int :: |InContext(db, c)| <= MAX_TASKS)
  }

  // ----- histories

  lemma HistorySnoc(events: seq<Event>, e: Event, v: nat)
    ensures History(events + [e], v) == History(events, v) + (if e.version == v then [e.kind] else [])
  {
    assert (events + [e])[..|events|] == events;
  }

  lemma {:induction false} HistoryHas(events: seq<Event>, v: nat, k: Kind)
    ensures k in History(events, v) <==> Has(events, v, k)
  {
    if events != [] {
      var n := |events| - 1;
      HistoryHas(events[..n], v, k);
      HasSnoc(events[..n], events[n], v, k);
      assert events == events[..n] + [events[n]];
    }
  }

  lemma HasSnoc(events: seq<Event>, e: Event, v: nat, k: Kind)
    ensures Has(events + [e], v, k) <==> Has(events, v, k) || (e.version == v && e.kind == k)
  {
    var all := events + [e];
    if Has(events, v, k) {
      var i :| 0 <= i < |events| && events[i].version == v && events[i].kind == k;
      assert all[i] == events[i];
    }
    assert all[|events|] == e;
  }

  /** No events of a version that has not begun. */
  lemma {:induction false} HistoryOfNew(events: seq<Event>, v: nat)
    requires forall i :: 0 <= i < |events| ==> events[i].version < v
    ensures History(events, v) == []
  {
    if events != [] {
      HistoryOfNew(events[..|events| - 1], v);
    }
  }

  lemma {:induction false} NoCancelYet(events: seq<Event>, v: nat)
    requires !HasCancel(events)
    ensures Cancelled !in History(events, v)
  {
    HistoryHas(events, v, Cancelled);
  }

  // ----- each step keeps the invariant of its task

  /** What a command may add to a version's history. */
  predicate Allowed(ks: seq<Kind>, k: Kind) {
    && (k == VersionCreated ==> ks == [])
    && (k == Approved ==> forall i :: 0 <= i < |ks| ==> ks[i] != Approved && ks[i] != Revoked && ks[i] != Paused)
    && (k == Revoked ==> exists i :: 0 <= i < |ks| && ks[i] == Approved)
  }

  lemma ShapeGrows(ks: seq<Kind>, k: Kind)
    requires ks == [] ==> k == VersionCreated
    requires ks != [] ==> Shape(ks) && Cancelled !in ks
    requires Allowed(ks, k)
    ensures Shape(ks + [k])
  {
    assert |ks| > 1 ==> ks[1] != Cancelled;
  }

  lemma ShapesGrow(versions: nat, events: seq<Event>, e: Event)
    requires versions > 0 && !HasCancel(events)
    requires ShapeInv(if e.kind == VersionCreated then versions - 1 else versions, events)
    requires e.version == versions && Allowed(History(events, versions), e.kind)
    requires e.kind == VersionCreated || History(events, versions) != []
    ensures ShapeInv(versions, events + [e])
  {
    forall v | 1 <= v <= versions
      ensures Shape(History(events + [e], v))
    {
      HistorySnoc(events, e, v);
      if v == versions {
        NoCancelYet(events, v);
        ShapeGrows(History(events, v), e.kind);
      } else {
        assert History(events, v) + [] == History(events, v);
      }
    }
  }

  /** w is t with one more event, for its latest version and not before anything recorded there. */
  ghost predicate Adds(t: Task, w: Task, e: Event) {
    && t.versions != [] && w == t.(events := t.events + [e])
    && e.version == |t.versions| && |t.events| < MAX_EVENTS
    && NotBefore(t, e.recordedAt)
  }

  lemma AppendAdds(t: Task, kind: Kind, at: int)
    requires t.versions != [] && Append(t, kind, at).Ok?
    ensures Adds(t, Append(t, kind, at).value, Event(|t.versions|, kind, at))
  {}

  lemma AddKeepsOrder(t: Task, w: Task, e: Event)
    requires OrderInv(t) && !HasCancel(t.events) && Adds(t, w, e)
    ensures OrderInv(w)
  {
    LastIsLatest(t);
  }

  lemma LastIsLatest(t: Task)
    requires OrderInv(t)
    ensures forall i :: 0 <= i < |t.events| ==>
              1 <= t.events[i].version <= |t.versions| && t.events[i].recordedAt <= Last(t.events).recordedAt
  {
    var n := |t.events|;
    forall i | 0 <= i < n
      ensures t.events[i].recordedAt <= t.events[n - 1].recordedAt
    {
      assert i < n - 1 ==> t.events[i].recordedAt <= t.events[n - 1].recordedAt;
    }
  }

  /** A version appended together with its first event. */
  lemma CreateKeepsOrder(t: Task, u: Task, w: Task, version: Version, e: Event)
    requires OrderInv(t) && !HasCancel(t.events) && |t.versions| < MAX_VERSIONS
    requires t.events != [] ==> Last(t.events).recordedAt <= version.recordedAt
    requires u == t.(versions := t.versions + [version]) && Adds(u, w, e)
    ensures OrderInv(w)
  {
    LastIsLatest(t);
    forall i | 0 <= i < |w.events|
      ensures w.versions[w.events[i].version - 1].recordedAt <= w.events[i].recordedAt
    {
      assert i < |t.events| ==> w.versions[t.events[i].version - 1] == t.versions[t.events[i].version - 1];
    }
  }

  // ----- holds

  lemma {:induction false} UnheldPlans(held: set<Plan>, members: seq<Plan>)
    ensures forall p :: p in Unheld(held, members) <==> p in members && p !in held
  {
    if members != [] {
      UnheldPlans(held, members[1..]);
      assert members == [members[0]] + members[1..];
    }
  }

  lemma UnheldAt(held: set<Plan>, members: seq<Plan>, i: nat)
    requires i < |Unheld(held, members)|
    ensures Unheld(held, members)[i] in members && Unheld(held, members)[i] !in held
  {
    UnheldPlans(held, members);
    var p := Unheld(held, members)[i];
    assert p in Unheld(held, members);
  }

  lemma {:induction false} UnheldDistinct(held: set<Plan>, members: seq<Plan>)
    requires Distinct(members)
    ensures Distinct(Unheld(held, members))
  {
    if members != [] {
      UnheldDistinct(held, members[1..]);
      UnheldPlans(held, members[1..]);
    }
  }

  lemma {:induction false} DistinctCount(ps: seq<Plan>)
    requires Distinct(ps)
    ensures |SetOf(ps)| == |ps|
  {
    if ps != [] {
      DistinctCount(ps[1..]);
      assert SetOf(ps) == {ps[0]} + SetOf(ps[1..]);
    }
  }

  /** What is held and selected together counts what is held and what is still to be held. */
  lemma UnheldSplits(held: set<Plan>, members: seq<Plan>)
    requires Distinct(members)
    ensures |held + SetOf(members)| == |held| + |Unheld(held, members)|
  {
    var u := Unheld(held, members);
    UnheldPlans(held, members);
    UnheldDistinct(held, members);
    DistinctCount(u);
    assert held + SetOf(members) == held + SetOf(u) && held !! SetOf(u);
  }

  lemma {:induction false} HeldCount(held: seq<Hold>)
    requires forall i, j :: 0 <= i < j < |held| ==> held[i].plan != held[j].plan
    ensures |PlansOf(held)| == |held|
  {
    if held != [] {
      var n := |held| - 1;
      HeldCount(held[..n]);
      assert held == held[..n] + [held[n]];
      assert PlansOf(held) == PlansOf(held[..n]) + {held[n].plan};
      assert held[n].plan !in PlansOf(held[..n]);
    }
  }

  /** The hold check never fails: the budget already covers what is held together with what is selected. */
  lemma HoldCheckNeverFails(t: Task)
    requires BudgetInv(t) && HoldsInv(t)
    ensures Allocate(t).Ok?
  {
    HeldCount(t.held);
    UnheldSplits(PlansOf(t.held), Last(t.versions).members);
  }

  lemma NewHoldPlans(plans: seq<Plan>, slot: nat, version: nat)
    ensures PlansOf(NewHolds(plans, slot, version)) == SetOf(plans)
  {
    var hs := NewHolds(plans, slot, version);
    forall p | p in plans
      ensures p in PlansOf(hs)
    {
      var i :| 0 <= i < |plans| && plans[i] == p;
      assert hs[i].plan == p && hs[i] in hs;
    }
  }

  lemma PlansConcat(a: seq<Hold>, b: seq<Hold>)
    ensures PlansOf(a + b) == PlansOf(a) + PlansOf(b)
  {}

  /** Allocation holds exactly the selected plans as well, in the next slots. */
  lemma AllocateAdds(t: Task)
    requires t.versions != [] && Allocate(t).Ok?
    ensures var u := Allocate(t).value;
            && u == t.(held := u.held)
            && PlansOf(u.held) == PlansOf(t.held) + SetOf(Last(t.versions).members)
  {
    var before, members := PlansOf(t.held), Last(t.versions).members;
    var added := Unheld(before, members);
    UnheldPlans(before, members);
    NewHoldPlans(added, |t.held| + 1, |t.versions|);
    PlansConcat(t.held, NewHolds(added, |t.held| + 1, |t.versions|));
    assert forall p :: p in before + SetOf(added) <==> p in before + SetOf(members);
  }

  ghost predicate InSlots(held: seq<Hold>) {
    && (forall i :: 0 <= i < |held| ==> held[i].slot == i + 1)
    && (forall i, j :: 0 <= i < j < |held| ==> held[i].plan != held[j].plan)
  }

  lemma AllocateKeepsSlots(t: Task)
    requires t.versions != [] && Distinct(Last(t.versions).members) && InSlots(t.held) && Allocate(t).Ok?
    ensures InSlots(Allocate(t).value.held)
    ensures NewAt(t.held, Allocate(t).value.held, Last(t.versions).members, |t.versions|)
  {
    var before, members := PlansOf(t.held), Last(t.versions).members;
    var added := Unheld(before, members);
    UnheldPlans(before, members);
    UnheldDistinct(before, members);
    forall i | 0 <= i < |t.held|
      ensures t.held[i].plan in before
    {
      assert t.held[i] in t.held;
    }
    forall i | 0 <= i < |added|
      ensures added[i] in members && added[i] !in before
    {
      UnheldAt(before, members, i);
    }
  }

  /** What was held stays; anything more is for a member of version n. */
  ghost predicate NewAt(held: seq<Hold>, more: seq<Hold>, members: seq<Plan>, n: nat) {
    && held <= more
    && forall i :: |held| <= i < |more| ==> more[i].plan in members && more[i].firstVersion == n
  }

  lemma HeldAfterEvent(t: Task, w: Task, e: Event, p: Plan, v: nat)
    requires w.versions == t.versions && w.events == t.events + [e]
    ensures HeldFor(w, p, v) <==>
              HeldFor(t, p, v) || (e.kind == Approved && e.version == v && 1 <= v <= |t.versions| && p in t.versions[v - 1].members)
  {
    HasSnoc(t.events, e, v, Approved);
  }

  lemma AddKeepsHolds(t: Task, w: Task, e: Event)
    requires HoldsInv(t) && e.kind != Approved && Adds(t, w, e)
    ensures HoldsInv(w)
  {
    forall p, v: nat
      ensures HeldFor(w, p, v) <==> HeldFor(t, p, v)
    {
      HeldAfterEvent(t, w, e, p, v);
    }
  }

  lemma ApproveKeepsHolds(t: Task, u: Task, w: Task, e: Event)
    requires HoldsInv(t) && t.versions != [] && u == t.(held := u.held) && Adds(u, w, e) && e.kind == Approved
    requires InSlots(u.held) && NewAt(t.held, u.held, Last(t.versions).members, |t.versions|)
    requires PlansOf(u.held) == PlansOf(t.held) + SetOf(Last(t.versions).members)
    ensures HoldsInv(w)
  {
    forall p, v: nat
      ensures HeldFor(w, p, v) <==> HeldFor(t, p, v) || (v == |t.versions| && p in Last(t.versions).members)
    {
      HeldAfterEvent(t, t.(events := w.events), e, p, v);
      assert HeldFor(w, p, v) <==> HeldFor(t.(events := w.events), p, v);
    }
    forall i | 0 <= i < |w.held|
      ensures HeldFor(w, w.held[i].plan, w.held[i].firstVersion)
    {
      if i < |t.held| {
        assert w.held[i] == t.held[i];
      }
    }
  }

  lemma CreateKeepsHolds(t: Task, u: Task, w: Task, version: Version, e: Event)
    requires HoldsInv(t) && OrderInv(t) && e.kind == VersionCreated
    requires u == t.(versions := t.versions + [version]) && Adds(u, w, e)
    ensures HoldsInv(w)
  {
    forall p, v: nat
      ensures HeldFor(w, p, v) <==> HeldFor(t, p, v)
    {
      HasSnoc(t.events, e, v, Approved);
    }
  }

  // ----- commands

  lemma HistoryNonEmpty(t: Task)
    requires TaskInv(t)
    ensures History(t.events, |t.versions|) != []
  {
    assert Shape(History(t.events, |t.versions|));
  }

  /** What a new version is known to satisfy. */
  ghost predicate Fitting(t: Task, version: Version) {
    && Bounded(version.limit, version.members)
    && |PlansOf(t.held) + SetOf(version.members)| <= version.limit
    && (t.events != [] ==> Last(t.events).recordedAt <= version.recordedAt)
    && !HasCancel(t.events) && |t.versions| < MAX_VERSIONS
  }

  lemma CreateIsFitting(db: Tables, id: TaskId, d: Draft, outside: Outside)
    requires CreateVersion(db, id, d, outside).Ok?
    ensures var t := Base(db, id, d); var version := Version(d.digest, d.limit, d.members, outside.at);
            && t.Ok? && t.value == (if id in db then db[id] else Task(d.target, [], [], []))
            && Fitting(t.value, version)
            && Append(t.value.(versions := t.value.versions + [version]), VersionCreated, outside.eventAt)
               == CreateVersion(db, id, d, outside)
            && (forall p :: p in d.members ==> !BoundElsewhere(db, id, p))
  {}

  lemma VersionKeepsTask(t: Task, u: Task, w: Task, version: Version, e: Event)
    requires (t.versions == [] && t.events == [] && t.held == []) || TaskInv(t)
    requires Fitting(t, version) && e.kind == VersionCreated
    requires u == t.(versions := t.versions + [version]) && Adds(u, w, e)
    ensures TaskInv(w)
  {
    CreateKeepsOrder(t, u, w, version, e);
    CreateKeepsHolds(t, u, w, version, e);
    HistoryOfNew(t.events, |u.versions|);
    ShapesGrow(|u.versions|, t.events, e);
  }

  lemma AddKeepsTask(t: Task, w: Task, e: Event)
    requires TaskInv(t) && !HasCancel(t.events) && Adds(t, w, e) && e.kind != VersionCreated && e.kind != Approved
    requires e.kind == Revoked ==> Has(t.events, |t.versions|, Approved)
    ensures TaskInv(w)
  {
    AddKeepsOrder(t, w, e);
    AddKeepsHolds(t, w, e);
    HistoryNonEmpty(t);
    HistoryHas(t.events, |t.versions|, Approved);
    ShapesGrow(|t.versions|, t.events, e);
  }

  lemma ApproveKeepsShapes(t: Task, e: Event)
    requires TaskInv(t) && !HasCancel(t.events) && e.kind == Approved && e.version == |t.versions|
    requires !Has(t.events, |t.versions|, Approved) && !Has(t.events, |t.versions|, Revoked) && !Has(t.events, |t.versions|, Paused)
    ensures ShapeInv(|t.versions|, t.events + [e])
  {
    HistoryNonEmpty(t);
    HistoryHas(t.events, |t.versions|, Approved);
    HistoryHas(t.events, |t.versions|, Revoked);
    HistoryHas(t.events, |t.versions|, Paused);
    ShapesGrow(|t.versions|, t.events, e);
  }

  lemma ApproveKeepsTask(t: Task, w: Task, e: Event)
    requires TaskInv(t) && !HasCancel(t.events) && e.kind == Approved
    requires !Has(t.events, |t.versions|, Approved) && !Has(t.events, |t.versions|, Revoked) && !Has(t.events, |t.versions|, Paused)
    requires Allocate(t).Ok? && Adds(Allocate(t).value, w, e)
    ensures TaskInv(w)
  {
    var u := Allocate(t).value;
    AllocateAdds(t);
    AllocateKeepsSlots(t);
    AddKeepsOrder(u, w, e);
    ApproveKeepsHolds(t, u, w, e);
    ApproveKeepsShapes(t, e);
    assert PlansOf(u.held) + SetOf(Last(t.versions).members) == PlansOf(t.held) + SetOf(Last(t.versions).members);
  }

  lemma CreateKeepsTask(db: Tables, id: TaskId, d: Draft, outside: Outside)
    requires id in db ==> TaskInv(db[id])
    requires CreateVersion(db, id, d, outside).Ok?
    ensures TaskInv(CreateVersion(db, id, d, outside).value)
  {
    CreateIsFitting(db, id, d, outside);
    var t, version := Base(db, id, d).value, Version(d.digest, d.limit, d.members, outside.at);
    var u, w := t.(versions := t.versions + [version]), CreateVersion(db, id, d, outside).value;
    AppendAdds(u, VersionCreated, outside.eventAt);
    VersionKeepsTask(t, u, w, version, Event(|u.versions|, VersionCreated, outside.eventAt));
  }

  lemma DecideKeepsTask(db: Tables, id: TaskId, r: Reference, expected: int, approve: bool, outside: Outside)
    requires id in db && TaskInv(db[id])
    requires DecideBudget(db, id, r, expected, approve, outside).Ok?
    ensures TaskInv(DecideBudget(db, id, r, expected, approve, outside).value)
  {
    var t, w := db[id], DecideBudget(db, id, r, expected, approve, outside).value;
    if approve {
      AppendAdds(Allocate(t).value, Approved, outside.eventAt);
      ApproveKeepsTask(t, w, Event(|t.versions|, Approved, outside.eventAt));
    } else {
      AppendAdds(t, Revoked, outside.eventAt);
      AddKeepsTask(t, w, Event(|t.versions|, Revoked, outside.eventAt));
    }
  }

  lemma TransitionKeepsTask(db: Tables, id: TaskId, r: Reference, expected: int, action: Action, outside: Outside)
    requires id in db && TaskInv(db[id])
    requires Transition(db, id, r, expected, action, outside).Ok?
    ensures TaskInv(Transition(db, id, r, expected, action, outside).value)
  {
    var t, kind := db[id], if action == Pause then Paused else Cancelled;
    AppendAdds(t, kind, outside.eventAt);
    AddKeepsTask(t, Transition(db, id, r, expected, action, outside).value, Event(|t.versions|, kind, outside.eventAt));
  }

  lemma CommandKeepsTask(db: Tables, id: TaskId, c: Command, outside: Outside)
    requires id in db ==> TaskInv(db[id])
    requires Outcome(db, id, c, outside).Ok?
    ensures TaskInv(Outcome(db, id, c, outside).value)
  {
    match c
    case Create(d) => CreateKeepsTask(db, id, d, outside);
    case Decide(r, expected, approve) => DecideKeepsTask(db, id, r, expected, approve, outside);
    case Move(r, expected, action) => TransitionKeepsTask(db, id, r, expected, action, outside);
  }

  /** Versions, events and holds are only appended to. */
  predicate Extends(t: Task, u: Task) {
    t.target == u.target && t.versions <= u.versions && t.events <= u.events && t.held <= u.held
  }

  lemma CreateExtends(db: Tables, id: TaskId, d: Draft, outside: Outside)
    requires CreateVersion(db, id, d, outside).Ok?
    ensures id in db ==> Extends(db[id], CreateVersion(db, id, d, outside).value)
    ensures |CreateVersion(db, id, d, outside).value.events| == Sequence(db, id) + 1
  {
    CreateIsFitting(db, id, d, outside);
  }

  function Sequence(db: Tables, id: TaskId): nat {
    if id in db then |db[id].events| else 0
  }

  /** Each success extends its task by exactly one event. */
  lemma CommandExtends(db: Tables, id: TaskId, c: Command, outside: Outside)
    requires Outcome(db, id, c, outside).Ok?
    ensures id in db ==> Extends(db[id], Outcome(db, id, c, outside).value)
    ensures |Outcome(db, id, c, outside).value.events| == Sequence(db, id) + 1
    ensures c.Create? || id in db
  {
    match c
    case Create(d) => CreateExtends(db, id, d, outside);
    case Decide(_, _, approve) =>
      if approve {
        AllocateAdds(db[id]);
      }
    case Move(_, _, _) =>
  }

  lemma CreatedMembers(db: Tables, id: TaskId, d: Draft, outside: Outside, p: Plan)
    requires CreateVersion(db, id, d, outside).Ok? && Selects(CreateVersion(db, id, d, outside).value, p)
    ensures (id in db && Selects(db[id], p)) || !BoundElsewhere(db, id, p)
  {
    CreateIsFitting(db, id, d, outside);
    var t, u := Base(db, id, d).value, CreateVersion(db, id, d, outside).value;
    var v :| 0 <= v < |u.versions| && p in u.versions[v].members;
    if v < |t.versions| {
      assert t.versions[v] == u.versions[v];
      assert Selects(t, p);
    }
  }

  lemma CommandMembers(db: Tables, id: TaskId, c: Command, outside: Outside, p: Plan)
    requires Committed(db, id, c, outside).Ok? && Selects(Committed(db, id, c, outside).value, p)
    ensures (id in db && Selects(db[id], p)) || !BoundElsewhere(db, id, p)
  {
    if c.Create? {
      CreatedMembers(db, id, c.draft, outside, p);
    }
  }

  lemma PerformKeepsMembersApart(db: Tables, id: TaskId, c: Command, outside: Outside, other: TaskId, p: Plan)
    requires Inv(db) && Committed(db, id, c, outside).Ok?
    requires other in Perform(db, id, c, outside) && Selects(Perform(db, id, c, outside)[other], p)
    ensures !BoundElsewhere(Perform(db, id, c, outside), other, p)
  {
    var db' := Perform(db, id, c, outside);
    if other == id {
      CommandMembers(db, id, c, outside, p);
      assert forall o :: o in db' && o != id ==> o in db && db'[o] == db[o];
    } else {
      assert Selects(db[other], p);
      if Selects(db'[id], p) {
        CommandMembers(db, id, c, outside, p);
      }
    }
  }

  lemma PerformKeepsCount(db: Tables, id: TaskId, c: Command, outside: Outside, x: int)
    requires |InContext(db, x)| <= MAX_TASKS && Committed(db, id, c, outside).Ok?
    ensures |InContext(Perform(db, id, c, outside), x)| <= MAX_TASKS
  {
    var db' := Perform(db, id, c, outside);
    if x == id.context && id !in db {
      assert InContext(db', x) == InContext(db, x) + {id};
      NewTaskNeedsRoom(db, id, c, outside);
    } else {
      assert InContext(db', x) == InContext(db, x);
    }
  }

  lemma NewTaskNeedsRoom(db: Tables, id: TaskId, c: Command, outside: Outside)
    requires id !in db && Committed(db, id, c, outside).Ok?
    ensures |InContext(db, id.context)| < MAX_TASKS
  {}

  lemma PerformKeepsInv(db: Tables, id: TaskId, c: Command, outside: Outside)
    requires Inv(db)
    ensures Inv(Perform(db, id, c, outside))
  {
    var db' := Perform(db, id, c, outside);
    if Committed(db, id, c, outside).Ok? {
      CommandKeepsTask(db, id, c, outside);
      forall other, p | other in db' && Selects(db'[other], p)
        ensures !BoundElsewhere(db', other, p)
      {
        PerformKeepsMembersApart(db, id, c, outside, other, p);
      }
      forall x: int
        ensures |InContext(db', x)| <= MAX_TASKS
      {
        PerformKeepsCount(db, id, c, outside, x);
      }
    }
  }

  // ----- runs

  datatype Call = Call(id: TaskId, command: Command, outside: Outside)

  /** The tables after the calls, in order. */
  function Run(db: Tables, calls: seq<Call>): Tables
    decreases |calls|
  {
    if calls == [] then db
    else Run(Perform(db, calls[0].id, calls[0].command, calls[0].outside), calls[1..])
  }

  lemma {:induction false} RunKeepsInv(db: Tables, calls: seq<Call>)
    requires Inv(db)
    ensures Inv(Run(db, calls))
    decreases |calls|
  {
    if calls != [] {
      PerformKeepsInv(db, calls[0].id, calls[0].command, calls[0].outside);
      RunKeepsInv(Perform(db, calls[0].id, calls[0].command, calls[0].outside), calls[1..]);
    }
  }

  /** Whatever was called before, by whom and in whatever order. */
  lemma ReachableInv(calls: seq<Call>)
    ensures Inv(Run(map[], calls))
  {
    assert forall c: int :: InContext(map[], c) == {};
    RunKeepsInv(map[], calls);
  }

  /** The plans a task has selected in an approved version. */
  ghost predicate EverApproved(t: Task, p: Plan) {
    exists v :: HeldFor(t, p, v)
  }

  lemma HeldExactly(t: Task)
    requires HoldsInv(t)
    ensures forall p :: p in PlansOf(t.held) <==> EverApproved(t, p)
  {
    forall p | p in PlansOf(t.held)
      ensures EverApproved(t, p)
    {
      var i :| 0 <= i < |t.held| && t.held[i].plan == p;
      assert HeldFor(t, p, t.held[i].firstVersion);
    }
  }

  /**
   In every reachable state, what is held together with what the latest version selects
   fits that version's limit; the holds are numbered from one, for distinct plans, and are
   exactly the plans of approved versions.
   */
  lemma HoldsFitLatestBudget(calls: seq<Call>, id: TaskId)
    requires id in Run(map[], calls)
    ensures var t := Run(map[], calls)[id];
            && t.versions != []
            && |PlansOf(t.held) + SetOf(Last(t.versions).members)| <= Last(t.versions).limit
            && InSlots(t.held) && |t.held| <= MAX_REQUESTS
            && (forall p :: p in PlansOf(t.held) <==> EverApproved(t, p))
  {
    ReachableInv(calls);
    var t := Run(map[], calls)[id];
    HeldCount(t.held);
    HeldExactly(t);
    Included(PlansOf(t.held), SetOf(Last(t.versions).members));
  }

  lemma Included<T>(a: set<T>, b: set<T>)
    ensures |a| <= |a + b| && |b| <= |a + b|
  {
    assert a + b == a + (b - a) && a + b == b + (a - b);
  }

  /** No plan is selected by two tasks. */
  lemma TasksShareNoPlan(calls: seq<Call>, a: TaskId, b: TaskId, p: Plan)
    requires var db := Run(map[], calls); a in db && b in db && Selects(db[a], p) && Selects(db[b], p)
    ensures a == b
  {
    ReachableInv(calls);
    assert a == b || BoundElsewhere(Run(map[], calls), a, p);
  }

  /** Each version's history has its shape; versions and times never go back; only the last event can be a cancellation. */
  lemma HistoriesAreWellFormed(calls: seq<Call>, id: TaskId)
    requires id in Run(map[], calls)
    ensures var t := Run(map[], calls)[id]; OrderInv(t) && ShapeInv(|t.versions|, t.events)
  {
    ReachableInv(calls);
  }

  // ----- approval

  lemma SelectedFits(db: Tables, id: TaskId, outside: Outside)
    requires Inv(db) && id in db && outside.qualified.None?
    ensures db[id].versions != []
    ensures Snapshot(db, id, Last(db[id].versions).limit, Last(db[id].versions).members, outside) == None
  {
    var t := db[id];
    var n := |t.versions| - 1;
    DistinctCount(t.versions[n].members);
    Included(PlansOf(t.held), SetOf(t.versions[n].members));
    forall p | p in t.versions[n].members
      ensures !BoundElsewhere(db, id, p)
    {
      assert Selects(t, p);
    }
  }

  ghost predicate Undecided(t: Task) {
    !Has(t.events, |t.versions|, Approved) && !Has(t.events, |t.versions|, Revoked) && !Has(t.events, |t.versions|, Paused)
  }

  lemma ApprovalIsAppended(db: Tables, id: TaskId, r: Reference, expected: int, outside: Outside)
    requires Current(db, id, r, expected).Ok? && Undecided(db[id]) && Allocate(db[id]).Ok?
    requires Snapshot(db, id, Last(db[id].versions).limit, Last(db[id].versions).members, outside) == None
    ensures DecideBudget(db, id, r, expected, true, outside) == Append(Allocate(db[id]).value, Approved, outside.eventAt)
  {}

  lemma AppendsExactly(t: Task, u: Task, kind: Kind, at: int)
    requires t.versions != [] && u == t.(held := u.held)
    ensures Append(u, kind, at).Ok? <==> |t.events| < MAX_EVENTS && NotBefore(t, at)
  {}

  lemma ApprovalSucceedsExactly(db: Tables, id: TaskId, r: Reference, expected: int, outside: Outside)
    requires Inv(db) && Current(db, id, r, expected).Ok? && outside.qualified.None? && Undecided(db[id])
    ensures DecideBudget(db, id, r, expected, true, outside).Ok? <==> |db[id].events| < MAX_EVENTS && NotBefore(db[id], outside.eventAt)
  {
    var t := db[id];
    SelectedFits(db, id, outside);
    HoldCheckNeverFails(t);
    AllocateAdds(t);
    ApprovalIsAppended(db, id, r, expected, outside);
    AppendsExactly(t, Allocate(t).value, Approved, outside.eventAt);
  }

  /**
   Approving the current version of an undecided task that still qualifies fails only when
   the log is full or the clock went back: never at the hold check or the selection checks.
   */
  lemma ApprovalNeverFailsTheHoldCheck(calls: seq<Call>, id: TaskId, r: Reference, expected: int, outside: Outside)
    requires var db := Run(map[], calls); Current(db, id, r, expected).Ok? && outside.qualified.None? && Undecided(db[id])
    ensures var db := Run(map[], calls);
            DecideBudget(db, id, r, expected, true, outside).Ok? <==> |db[id].events| < MAX_EVENTS && NotBefore(db[id], outside.eventAt)
  {
    ReachableInv(calls);
    ApprovalSucceedsExactly(Run(map[], calls), id, r, expected, outside);
  }

  /** The last approval or revocation in the history. */
  predicate DecidedAt(ks: seq<Kind>, i: int, k: Kind) {
    && 0 <= i < |ks| && ks[i] == k && (k == Approved || k == Revoked)
    && forall j :: i < j < |ks| ==> ks[j] != Approved && ks[j] != Revoked
  }

  lemma {:induction false} LastDecisionIs(events: seq<Event>, v: nat)
    ensures LastDecision(events, v).None? ==> Approved !in History(events, v) && Revoked !in History(events, v)
    ensures LastDecision(events, v).Some? ==> exists i :: DecidedAt(History(events, v), i, LastDecision(events, v).value)
  {
    if events != [] {
      var n := |events| - 1;
      LastDecisionIs(events[..n], v);
      var ks, before := History(events, v), History(events[..n], v);
      var e := events[n];
      if e.version == v && (e.kind == Approved || e.kind == Revoked) {
        assert DecidedAt(ks, |before|, e.kind);
      } else if LastDecision(events[..n], v).Some? {
        var k := LastDecision(events[..n], v).value;
        var i :| DecidedAt(before, i, k);
        assert DecidedAt(ks, i, k);
      }
    }
  }

  function Third(ks: seq<Kind>): Option<Kind> {
    if |ks| > 2 then Some(ks[2]) else None
  }

  lemma ApprovedOnly(ks: seq<Kind>, i: int)
    requires Shape(ks) && DecidedAt(ks, i, Approved)
    requires forall j :: 0 <= j < |ks| ==> ks[j] != Paused && ks[j] != Cancelled
    ensures ks == [VersionCreated, Approved]
  {
    assert Third(ks) == None;
  }

  /** A version is reported approved exactly while it is the latest and nothing has happened to it since its approval. */
  lemma ApprovedExactly(t: Task, v: nat)
    requires TaskInv(t) && 1 <= v <= |t.versions|
    ensures StateOf(t, v) == BudgetApproved <==> v == |t.versions| && History(t.events, v) == [VersionCreated, Approved]
  {
    var ks := History(t.events, v);
    assert Shape(ks);
    LastDecisionIs(t.events, v);
    HistoryHas(t.events, v, Paused);
    if HasCancel(t.events) {
      var i :| 0 <= i < |t.events| && t.events[i].kind == Cancelled;
      CancelBelongsToLatest(t, i);
      HistoryHas(t.events, |t.versions|, Cancelled);
    } else {
      NoCancelYet(t.events, v);
      if LastDecision(t.events, v) == Some(Approved) && !Has(t.events, v, Paused) {
        var i :| DecidedAt(ks, i, Approved);
        ApprovedOnly(ks, i);
      } else if ks == [VersionCreated, Approved] {
        assert ks[1] in ks;
      }
    }
  }

  lemma CancelBelongsToLatest(t: Task, i: nat)
    requires TaskInv(t) && i < |t.events| && t.events[i].kind == Cancelled
    ensures Has(t.events, |t.versions|, Cancelled)
  {
    var n := |t.versions|;
    var ks := History(t.events, n);
    assert Shape(ks) && ks[0] in ks;
    HistoryHas(t.events, n, VersionCreated);
    var j :| 0 <= j < |t.events| && t.events[j].version == n && t.events[j].kind == VersionCreated;
    assert j <= i;
  }

  /** An inspection's own checks of the holds are implied by the state it reports. */
  lemma ApprovedBudgetIsCovered(calls: seq<Call>, id: TaskId)
    requires id in Run(map[], calls)
    requires var t := Run(map[], calls)[id]; StateOf(t, |t.versions|) == BudgetApproved
    ensures var t := Run(map[], calls)[id];
            t.versions != [] && |t.held| <= Last(t.versions).limit && SetOf(Last(t.versions).members) <= PlansOf(t.held)
  {
    ReachableInv(calls);
    var t := Run(map[], calls)[id];
    var n := |t.versions|;
    HeldCount(t.held);
    Included(PlansOf(t.held), SetOf(Last(t.versions).members));
    ApprovedExactly(t, n);
    assert History(t.events, n)[1] in History(t.events, n);
    HistoryHas(t.events, n, Approved);
    forall p | p in SetOf(Last(t.versions).members)
      ensures p in PlansOf(t.held)
    {
      assert HeldFor(t, p, n);
    }
  }

  // ----- what never comes back

  lemma ExtendsIsTransitive(a: Task, b: Task, c: Task)
    requires Extends(a, b) && Extends(b, c)
    ensures Extends(a, c)
  {}

  /** Tasks are never removed, and only appended to. */
  lemma {:induction false} RunExtends(db: Tables, calls: seq<Call>, id: TaskId)
    requires id in db
    ensures id in Run(db, calls) && Extends(db[id], Run(db, calls)[id])
    decreases |calls|
  {
    if calls != [] {
      var x := calls[0];
      var next := Perform(db, x.id, x.command, x.outside);
      if x.id == id && Committed(db, id, x.command, x.outside).Ok? {
        CommandExtends(db, id, x.command, x.outside);
      }
      RunExtends(next, calls[1..], id);
      ExtendsIsTransitive(db[id], next[id], Run(db, calls)[id]);
    }
  }

  lemma {:induction false} HistoryExtends(a: seq<Event>, b: seq<Event>, v: nat)
    requires a <= b
    ensures History(a, v) <= History(b, v)
    decreases |b|
  {
    if |a| < |b| {
      HistoryExtends(a, b[..|b| - 1], v);
    } else {
      assert a == b;
    }
  }

  /** Whether the task's version is reported approved. */
  predicate ReportedApproved(db: Tables, id: TaskId, v: nat) {
    id in db && 1 <= v <= |db[id].versions| && StateOf(db[id], v) == BudgetApproved
  }

  /** A version that has left the approved state never returns to it. */
  lemma ApprovalIsNeverRegained(calls: seq<Call>, more: seq<Call>, later: seq<Call>, id: TaskId, v: nat)
    ensures var a := Run(map[], calls);
            var b := Run(a, more);
            ReportedApproved(a, id, v) && !ReportedApproved(b, id, v) ==> !ReportedApproved(Run(b, later), id, v)
  {
    var a := Run(map[], calls);
    var b := Run(a, more);
    var c := Run(b, later);
    if ReportedApproved(a, id, v) && !ReportedApproved(b, id, v) {
      ReachableInv(calls);
      RunKeepsInv(a, more);
      RunKeepsInv(b, later);
      RunExtends(a, more, id);
      RunExtends(b, later, id);
      Withdrawn(a[id], b[id], c[id], v);
    }
  }

  lemma Withdrawn(a: Task, b: Task, c: Task, v: nat)
    requires TaskInv(a) && TaskInv(b) && TaskInv(c) && Extends(a, b) && Extends(b, c)
    requires 1 <= v <= |a.versions| && StateOf(a, v) == BudgetApproved && StateOf(b, v) != BudgetApproved
    ensures StateOf(c, v) != BudgetApproved
  {
    ApprovedExactly(a, v);
    ApprovedExactly(b, v);
    ApprovedExactly(c, v);
    HistoryExtends(a.events, b.events, v);
    HistoryExtends(b.events, c.events, v);
  }

  function Expected(c: Command): int {
    match c
    case Create(d) => d.expected
    case Decide(_, expected, _) => expected
    case Move(_, expected, _) => expected
  }

  /** A command succeeds only at the sequence it expects. */
  lemma SuccessIsExpected(db: Tables, id: TaskId, c: Command, outside: Outside)
    requires Committed(db, id, c, outside).Ok?
    ensures Expected(c) == Sequence(db, id)
  {}

  lemma {:induction false} SequenceNeverFalls(db: Tables, calls: seq<Call>, id: TaskId)
    ensures Sequence(db, id) <= Sequence(Run(db, calls), id)
  {
    if id in db {
      RunExtends(db, calls, id);
    }
  }

  /** Of two commands on a task that expect the same sequence, at most one ever succeeds. */
  lemma SameSequenceSucceedsOnce(db: Tables, first: Call, between: seq<Call>, second: Call)
    requires first.id == second.id && Expected(first.command) == Expected(second.command)
    requires Committed(db, first.id, first.command, first.outside).Ok?
    ensures Committed(Run(db, [first] + between), second.id, second.command, second.outside).Err?
  {
    var id, next := first.id, Perform(db, first.id, first.command, first.outside);
    assert ([first] + between)[1..] == between;
    SuccessIsExpected(db, id, first.command, first.outside);
    CommandExtends(db, id, first.command, first.outside);
    SequenceNeverFalls(next, between, id);
    if Committed(Run(next, between), id, second.command, second.outside).Ok? {
      SuccessIsExpected(Run(next, between), id, second.command, second.outside);
    }
  }

  /** Nothing changes a cancelled task. */
  lemma {:induction false} CancelledIsFinal(db: Tables, calls: seq<Call>, id: TaskId)
    requires id in db && HasCancel(db[id].events)
    ensures id in Run(db, calls) && Run(db, calls)[id] == db[id]
    decreases |calls|
  {
    if calls != [] {
      var x := calls[0];
      if x.id == id {
        assert Committed(db, id, x.command, x.outside).Err?;
      }
      CancelledIsFinal(Perform(db, x.id, x.command, x.outside), calls[1..], id);
    }
  }

  // ----- a task can get all the way to an approved budget

  /** A draft for a task that does not exist yet. */
  predicate Opens(d: Draft) {
    Bounded(d.limit, d.members) && |d.members| <= d.limit && d.previous == None && d.expected == 0
  }

  function Answer(at: int): Outside {
    Outside(None, at, at, None)
  }

  lemma FirstVersion(id: TaskId, d: Draft, at: int)
    requires Opens(d)
    ensures CreateVersion(map[], id, d, Answer(at))
            == Ok(Task(d.target, [Version(d.digest, d.limit, d.members, at)], [Event(1, VersionCreated, at)], []))
  {
    assert InContext(map[], id.context) == {};
    DistinctCount(d.members);
    assert PlansOf([]) + SetOf(d.members) == SetOf(d.members);
    assert [] + [Version(d.digest, d.limit, d.members, at)] == [Version(d.digest, d.limit, d.members, at)];
    assert [] + [Event(1, VersionCreated, at)] == [Event(1, VersionCreated, at)];
  }

  lemma ApprovedState(t: Task, a: int, b: int)
    requires |t.versions| == 1 && t.events == [Event(1, VersionCreated, a), Event(1, Approved, b)]
    ensures StateOf(t, 1) == BudgetApproved
  {
    assert Last(t.events) == Event(1, Approved, b);
  }

  lemma SecondDecision(db: Tables, id: TaskId, r: Reference, expected: int, outside: Outside)
    requires Inv(db) && Current(db, id, r, expected).Ok? && Undecided(db[id]) && outside.qualified.None?
    requires |db[id].events| < MAX_EVENTS && NotBefore(db[id], outside.eventAt)
    ensures var x := DecideBudget(db, id, r, expected, true, outside); var t := db[id];
            && x.Ok? && x.value == t.(held := x.value.held, events := t.events + [Event(|t.versions|, Approved, outside.eventAt)])
            && PlansOf(x.value.held) == PlansOf(t.held) + SetOf(Last(t.versions).members)
  {
    SelectedFits(db, id, outside);
    HoldCheckNeverFails(db[id]);
    AllocateAdds(db[id]);
    ApprovalIsAppended(db, id, r, expected, outside);
  }

  lemma SecondStep(db: Tables, id: TaskId, d: Draft, at: int, later: int)
    requires Inv(db) && id in db && Opens(d) && at <= later
    requires db[id] == Task(d.target, [Version(d.digest, d.limit, d.members, at)], [Event(1, VersionCreated, at)], [])
    ensures var x := DecideBudget(db, id, Reference(id.number, 1, d.digest), 1, true, Answer(later));
            && x.Ok? && |x.value.versions| == 1 && x.value.events == [Event(1, VersionCreated, at), Event(1, Approved, later)]
            && PlansOf(x.value.held) == SetOf(d.members)
  {
    SecondDecision(db, id, Reference(id.number, 1, d.digest), 1, Answer(later));
    assert PlansOf([]) + SetOf(d.members) == SetOf(d.members);
  }

  /** Any draft within its own limit can be created and then approved, and holds exactly its members. */
  lemma FirstApproval(id: TaskId, d: Draft, at: int, later: int)
    requires Opens(d) && at <= later
    ensures var calls := [Call(id, Create(d), Answer(at)), Call(id, Decide(Reference(id.number, 1, d.digest), 1, true), Answer(later))];
            var db := Run(map[], calls);
            ReportedApproved(db, id, 1) && PlansOf(db[id].held) == SetOf(d.members)
  {
    var c1, c2 := Call(id, Create(d), Answer(at)), Call(id, Decide(Reference(id.number, 1, d.digest), 1, true), Answer(later));
    FirstVersion(id, d, at);
    var db := Perform(map[], c1.id, c1.command, c1.outside);
    RunOfOne(map[], c1);
    ReachableInv([c1]);
    SecondStep(db, id, d, at, later);
    ApprovedState(Perform(db, c2.id, c2.command, c2.outside)[id], at, later);
    RunOfTwo(map[], c1, c2);
  }

  lemma RunOfOne(db: Tables, c: Call)
    ensures Run(db, [c]) == Perform(db, c.id, c.command, c.outside)
  {
    assert [c][1..] == [];
  }

  lemma RunOfTwo(db: Tables, c: Call, c': Call)
    ensures Run(db, [c, c']) == Run(Perform(db, c.id, c.command, c.outside), [c'])
    ensures Run(db, [c, c']) == Perform(Perform(db, c.id, c.command, c.outside), c'.id, c'.command, c'.outside)
  {
    assert [c, c'][1..] == [c'];
    RunOfOne(Perform(db, c.id, c.command, c.outside), c');
  }
}
