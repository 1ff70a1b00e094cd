/**
 Concurrent admissions sharing advisory locks. Any number of processes scan the slots, recheck, run and release
 in any interleaving; a slot's lock belongs to one session. A session may be lost wherever one is used. Before
 and after the admitted body the process finds out and the lock goes when the server notices; inside the body
 it does not find out, so the lock goes and the process stays in.
 */
module AdmissionSlots {
  import opened Wrappers

  const MAXIMUM_BOUND := 1024

  /** Where a process is. From `Locked` to `Dropped` its session holds the slot's lock; an orphan runs its body without one. */
  datatype Process =
    | Idle
    | Polling
    | Scanning(limit: int, next: nat)
    | Locked(slot: nat)
    | Committed(slot: nat)
    | Inside(slot: nat)
    | Releasing(slot: nat)
    | Dropped(slot: nat)
    | Orphaned(slot: nat)

  /** `locks` maps a slot to the process whose session holds it. */
  datatype System = System(maximum: int, locks: map<nat, nat>, processes: seq<Process>)

  predicate Holds(p: Process) {
    p.Locked? || p.Committed? || p.Inside? || p.Releasing? || p.Dropped?
  }

  /** One step of one process. Any of its checks may fail, so giving up is possible wherever the code can raise. */
  datatype Step =
    | Start
    | ReadLimit
    | Try
    | NextRound
    | Commit
    | Recheck
    | Finish
    | GiveUp
    | Unlock
    | LoseSession
    | ServerNotices

  function Enabled(s: System, i: nat, step: Step): bool
    requires i < |s.processes|
  {
    var p := s.processes[i];
    match step
    case Start => p.Idle?
    case ReadLimit => p.Polling? && 1 <= s.maximum <= MAXIMUM_BOUND
    case Try => p.Scanning? && p.next <= p.limit
    case NextRound => p.Scanning? && p.next > p.limit
    case Commit => p.Locked?
    case Recheck => p.Committed? && 1 <= s.maximum <= MAXIMUM_BOUND && p.slot <= s.maximum
    case Finish => p.Inside? || p.Orphaned?
    case GiveUp => p.Polling? || p.Scanning? || p.Locked? || p.Committed?
    case Unlock => p.Releasing?
    case LoseSession => p.Locked? || p.Committed? || p.Inside? || p.Releasing?
    case ServerNotices => p.Dropped?
  }

  function Apply(s: System, i: nat, step: Step): System
    requires i < |s.processes| && Enabled(s, i, step)
  {
    var p := s.processes[i];
    match step
    case Start => Moved(s, i, Polling)
    case ReadLimit => Moved(s, i, Scanning(s.maximum, 1))
    case Try =>
      if p.next in s.locks then Moved(s, i, Scanning(p.limit, p.next + 1))
      else Moved(s.(locks := s.locks[p.next := i]), i, Locked(p.next))
    case NextRound => Moved(s, i, Polling)
    case Commit => Moved(s, i, Committed(p.slot))
    case Recheck => Moved(s, i, Inside(p.slot))
    case Finish => Moved(s, i, if p.Inside? then Releasing(p.slot) else Idle)
    case GiveUp => Moved(s, i, if Holds(p) then Releasing(p.slot) else Idle)
    case Unlock => Moved(s.(locks := s.locks - {p.slot}), i, Idle)
    case LoseSession =>
      if p.Inside? then Moved(s.(locks := s.locks - {p.slot}), i, Orphaned(p.slot))
      else Moved(s, i, Dropped(p.slot))
    case ServerNotices => Moved(s.(locks := s.locks - {p.slot}), i, Idle)
  }

  function Moved(s: System, i: nat, p: Process): System
    requires i < |s.processes|
  {
    s.(processes := s.processes[i := p])
  }

  /** A process steps, or the configured maximum is changed. */
  datatype Action = Act(i: nat, step: Step) | Configure(maximum: int)

  function Perform(s: System, a: Action): System {
    match a
    case Act(i, step) => if i < |s.processes| && Enabled(s, i, step) then Apply(s, i, step) else s
    case Configure(maximum) => s.(maximum := maximum)
  }

  function Run(s: System, actions: seq<Action>): System
    decreases |actions|
  {
    if actions == [] then s else Run(Perform(s, actions[0]), actions[1..])
  }

  function Initial(maximum: int, n: nat): System {
    System(maximum, map[], seq(n, i => Idle))
  }

  // ----- the invariant

  /** The locks are exactly the slots of the processes that hold one. */
  ghost predicate Inv(s: System) {
    && (forall i :: 0 <= i < |s.processes| && Holds(s.processes[i]) ==>
          s.processes[i].slot in s.locks && s.locks[s.processes[i].slot] == i)
    && (forall slot :: slot in s.locks ==>
          s.locks[slot] < |s.processes| && Holds(s.processes[s.locks[slot]]) && s.processes[s.locks[slot]].slot == slot)
  }

  /** A process moves on without taking or giving up a slot. */
  lemma MoveKeepsInv(s: System, i: nat, p: Process)
    requires Inv(s) && i < |s.processes|
    requires Holds(p) <==> Holds(s.processes[i])
    requires Holds(p) ==> p.slot == s.processes[i].slot
    ensures Inv(Moved(s, i, p))
  {}

  lemma TakeKeepsInv(s: System, i: nat, p: Process)
    requires Inv(s) && i < |s.processes| && !Holds(s.processes[i]) && Holds(p) && p.slot !in s.locks
    ensures Inv(Moved(s.(locks := s.locks[p.slot := i]), i, p))
  {}

  lemma GiveUpKeepsInv(s: System, i: nat, p: Process)
    requires Inv(s) && i < |s.processes| && Holds(s.processes[i]) && !Holds(p)
    ensures Inv(Moved(s.(locks := s.locks - {s.processes[i].slot}), i, p))
  {}

  lemma ApplyKeepsInv(s: System, i: nat, step: Step)
    requires Inv(s) && i < |s.processes| && Enabled(s, i, step)
    ensures Inv(Apply(s, i, step))
  {
    var p, t := s.processes[i], Apply(s, i, step);
    if t.locks == s.locks {
      MoveKeepsInv(s, i, t.processes[i]);
    } else if step == Try {
      TakeKeepsInv(s, i, t.processes[i]);
    } else {
      GiveUpKeepsInv(s, i, t.processes[i]);
    }
  }

  lemma {:induction false} RunKeepsInv(s: System, actions: seq<Action>)
    requires Inv(s)
    ensures Inv(Run(s, actions))
    decreases |actions|
  {
    if actions != [] {
      if actions[0].Act? && actions[0].i < |s.processes| && Enabled(s, actions[0].i, actions[0].step) {
        ApplyKeepsInv(s, actions[0].i, actions[0].step);
      }
      RunKeepsInv(Perform(s, actions[0]), actions[1..]);
    }
  }

  lemma ReachableInv(maximum: int, n: nat, actions: seq<Action>)
    ensures Inv(Run(Initial(maximum, n), actions))
  {
    RunKeepsInv(Initial(maximum, n), actions);
  }

  /** Two processes whose sessions live never hold the same slot, however the maximum is changed meanwhile. */
  lemma SlotsAreDistinct(maximum: int, n: nat, actions: seq<Action>, i: nat, j: nat)
    requires var s := Run(Initial(maximum, n), actions);
             && i < |s.processes| && j < |s.processes| && Holds(s.processes[i]) && Holds(s.processes[j])
             && s.processes[i].slot == s.processes[j].slot
    ensures i == j
  {
    ReachableInv(maximum, n, actions);
  }

  /** Nothing leaks: once no process holds a slot, no lock is left. */
  lemma EverySlotIsGivenBack(maximum: int, n: nat, actions: seq<Action>)
    requires var s := Run(Initial(maximum, n), actions); forall i :: 0 <= i < |s.processes| ==> !Holds(s.processes[i])
    ensures Run(Initial(maximum, n), actions).locks == map[]
  {
    ReachableInv(maximum, n, actions);
    assert Run(Initial(maximum, n), actions).locks.Keys == {};
  }

  // ----- the bound

  ghost predicate InRange(s: System, maximum: int) {
    forall i :: 0 <= i < |s.processes| ==>
      && (s.processes[i].Scanning? ==> 1 <= s.processes[i].next && s.processes[i].limit <= maximum)
      && (Holds(s.processes[i]) ==> 1 <= s.processes[i].slot <= maximum)
  }

  /** The maximum is never configured above the bound. */
  predicate NeverAbove(actions: seq<Action>, maximum: int) {
    forall a :: a in actions && a.Configure? ==> a.maximum <= maximum
  }

  lemma {:induction false} RunStaysInRange(s: System, actions: seq<Action>, maximum: int)
    requires InRange(s, maximum) && s.maximum <= maximum && NeverAbove(actions, maximum)
    ensures InRange(Run(s, actions), maximum)
    decreases |actions|
  {
    if actions != [] {
      assert actions[0] in actions;
      RunStaysInRange(Perform(s, actions[0]), actions[1..], maximum);
    }
  }

  /** The processes inside their body. */
  ghost function Admitted(s: System): set<nat> {
    Live(s) + Orphans(s)
  }

  /** Those whose session lives. */
  ghost function Live(s: System): set<nat> {
    set i: nat | i < |s.processes| && s.processes[i].Inside?
  }

  /** Those that lost it while inside. */
  ghost function Orphans(s: System): set<nat> {
    set i: nat | i < |s.processes| && s.processes[i].Orphaned?
  }

  function SlotOf(p: Process): nat
    requires Holds(p)
  {
    p.slot
  }

  ghost function SlotsOf(s: System, who: set<nat>): set<nat>
    requires forall i :: i in who ==> i < |s.processes| && Holds(s.processes[i])
  {
    set i | i in who :: SlotOf(s.processes[i])
  }

  lemma {:induction false} DistinctSlotsCount(s: System, who: set<nat>)
    requires Inv(s) && forall i :: i in who ==> i < |s.processes| && Holds(s.processes[i])
    ensures |SlotsOf(s, who)| == |who|
    decreases |who|
  {
    if who != {} {
      var i :| i in who;
      DistinctSlotsCount(s, who - {i});
      assert SlotsOf(s, who) == SlotsOf(s, who - {i}) + {s.processes[i].slot};
    }
  }

  lemma {:induction false} SlotCount(slots: set<nat>, maximum: nat)
    requires forall x :: x in slots ==> 1 <= x <= maximum
    ensures |slots| <= maximum
    decreases maximum
  {
    if maximum == 0 {
      assert slots == {};
    } else {
      SlotCount(slots - {maximum}, maximum - 1);
    }
  }

  /**
   At most as many processes with a live session are admitted at once as the largest
   maximum ever configured; every further one lost its session while inside.
   */
  lemma AdmissionBound(initial: int, n: nat, actions: seq<Action>, maximum: nat)
    requires initial <= maximum && NeverAbove(actions, maximum)
    ensures var s := Run(Initial(initial, n), actions);
            |Live(s)| <= maximum && |Admitted(s)| == |Live(s)| + |Orphans(s)|
  {
    var s := Run(Initial(initial, n), actions);
    ReachableInv(initial, n, actions);
    RunStaysInRange(Initial(initial, n), actions, maximum);
    DistinctSlotsCount(s, Live(s));
    SlotCount(SlotsOf(s, Live(s)), maximum);
    assert Live(s) !! Orphans(s);
  }

  /** Whether the run loses a session inside a body. */
  predicate LosesInside(s: System, actions: seq<Action>)
    decreases |actions|
  {
    actions != []
    && (var a := actions[0];
        (a.Act? && a.i < |s.processes| && a.step == LoseSession && s.processes[a.i].Inside?) || LosesInside(Perform(s, a), actions[1..]))
  }

  lemma {:induction false} NoOrphansWithoutLoss(s: System, actions: seq<Action>)
    requires Orphans(s) == {} && !LosesInside(s, actions)
    ensures Orphans(Run(s, actions)) == {}
    decreases |actions|
  {
    if actions != [] {
      var next := Perform(s, actions[0]);
      forall i: nat | i < |next.processes|
        ensures !next.processes[i].Orphaned?
      {
        assert i in Orphans(s) <==> s.processes[i].Orphaned?;
      }
      assert Orphans(next) == {};
      NoOrphansWithoutLoss(next, actions[1..]);
    }
  }

  /** As long as no session is lost inside a body, the bound is on all that are admitted. */
  lemma AdmissionBoundWithoutLoss(initial: int, n: nat, actions: seq<Action>, maximum: nat)
    requires initial <= maximum && NeverAbove(actions, maximum) && !LosesInside(Initial(initial, n), actions)
    ensures |Admitted(Run(Initial(initial, n), actions))| <= maximum
  {
    assert Orphans(Initial(initial, n)) == {};
    NoOrphansWithoutLoss(Initial(initial, n), actions);
    AdmissionBound(initial, n, actions, maximum);
  }

  /** A process's way in. */
  function WayIn(i: nat): seq<Action> {
    [Act(i, Start), Act(i, ReadLimit), Act(i, Try), Act(i, Commit), Act(i, Recheck)]
  }

  lemma {:induction false} RunSplits(s: System, first: seq<Action>, rest: seq<Action>)
    ensures Run(s, first + rest) == Run(Run(s, first), rest)
    decreases |first|
  {
    if first == [] {
      assert first + rest == rest;
    } else {
      assert (first + rest)[1..] == first[1..] + rest;
      RunSplits(Perform(s, first[0]), first[1..], rest);
    }
  }

  /** An idle process that finds the first slot free gets in with it, whatever the others do. */
  lemma FirstSlotAdmits(s: System, i: nat)
    requires i < |s.processes| && s.processes[i].Idle? && 1 !in s.locks && 1 <= s.maximum <= MAXIMUM_BOUND
    ensures Run(s, WayIn(i)) == s.(locks := s.locks[1 := i], processes := s.processes[i := Inside(1)])
  {
    var s1 := Perform(s, Act(i, Start));
    var s2 := Perform(s1, Act(i, ReadLimit));
    var s3 := Perform(s2, Act(i, Try));
    var s4 := Perform(s3, Act(i, Commit));
    var s5 := Perform(s4, Act(i, Recheck));
    assert s5.processes == s.processes[i := Inside(1)];
    var way := WayIn(i);
    assert way[1..][1..][1..][1..][1..] == [];
    assert Run(s4, way[4..]) == s5 && Run(s3, way[3..]) == Run(s4, way[4..]);
    assert Run(s2, way[2..]) == Run(s3, way[3..]) && Run(s1, way[1..]) == Run(s2, way[2..]);
  }

  /** Admissions do happen: alone, a process gets in with the first slot. */
  lemma OneCanBeAdmitted(maximum: int)
    requires 1 <= maximum <= MAXIMUM_BOUND
    ensures Run(Initial(maximum, 1), WayIn(0)).processes == [Inside(1)]
  {
    FirstSlotAdmits(Initial(maximum, 1), 0);
  }

  /** Two processes in turn, the first losing its session inside. */
  function LossBetween(): seq<Action> {
    WayIn(0) + [Act(0, LoseSession)] + WayIn(1)
  }

  lemma LossLetsAnotherIn(s: System)
    requires |s.processes| == 2 && s.processes[0] == Inside(1) && s.processes[1].Idle? && 1 <= s.maximum <= MAXIMUM_BOUND
    ensures Run(s, [Act(0, LoseSession)] + WayIn(1)).processes == [Orphaned(1), Inside(1)]
  {
    var lost := Perform(s, Act(0, LoseSession));
    assert ([Act(0, LoseSession)] + WayIn(1))[1..] == WayIn(1);
    FirstSlotAdmits(lost, 1);
  }

  /** A lost session breaks the bound: under a maximum of one a second process gets in beside the first, with the same slot. */
  lemma LostSessionBreaksTheBound()
    ensures Run(Initial(1, 2), LossBetween()).processes == [Orphaned(1), Inside(1)]
    ensures |Admitted(Run(Initial(1, 2), LossBetween()))| == 2
  {
    var s0 := Initial(1, 2);
    FirstSlotAdmits(s0, 0);
    RunSplits(s0, WayIn(0), [Act(0, LoseSession)] + WayIn(1));
    assert LossBetween() == WayIn(0) + ([Act(0, LoseSession)] + WayIn(1));
    LossLetsAnotherIn(Run(s0, WayIn(0)));
    BothAreIn(Run(s0, LossBetween()));
  }

  lemma BothAreIn(s: System)
    requires s.processes == [Orphaned(1), Inside(1)]
    ensures |Admitted(s)| == 2
  {
    assert Live(s) == {1} && Orphans(s) == {0};
  }
}
