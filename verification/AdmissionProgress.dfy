/** That processes get in and out: the lowest free slot is taken, polling goes on, and a slot is never kept. */
module AdmissionProgress {
  import opened Wrappers
  import opened AdmissionSlots

  /** The process of this number, with the locks and its own place changed. */
  function At(s: System, i: nat, locks: map<nat, nat>, p: Process): System
    requires i < |s.processes|
  {
    System(s.maximum, locks, s.processes[i := p])
  }

  lemma {:induction false} RunJoins(s: System, first: seq<Action>, rest: seq<Action>)
    ensures Run(s, first + rest) == Run(Run(s, first), rest)
    decreases |first|
  {
    if first == [] {
      assert first + rest == rest;
    } else {
      assert (first + rest)[0] == first[0] && (first + rest)[1..] == first[1..] + rest;
      RunJoins(Perform(s, first[0]), first[1..], rest);
    }
  }

  lemma RunOne(s: System, a: Action)
    ensures Run(s, [a]) == Perform(s, a)
  {
    assert Run(Perform(s, a), [a][1..]) == Perform(s, a);
  }

  lemma Moves(s: System, i: nat, locks: map<nat, nat>, p: Process, step: Step, locks': map<nat, nat>, q: Process)
    requires i < |s.processes|
    requires Perform(At(s, i, locks, p), Act(i, step)) == At(At(s, i, locks, p), i, locks', q)
    ensures Run(At(s, i, locks, p), [Act(i, step)]) == At(s, i, locks', q)
  {
    RunOne(At(s, i, locks, p), Act(i, step));
    assert s.processes[i := p][i := q] == s.processes[i := q];
  }

  /** Trying from one slot up to the first that is free. */
  lemma {:induction false} TriesUpTo(s: System, i: nat, locks: map<nat, nat>, limit: int, next: nat, free: nat)
    requires i < |s.processes| && next <= free <= limit && free !in locks && forall k: nat :: next <= k < free ==> k in locks
    ensures Run(At(s, i, locks, Scanning(limit, next)), seq(free - next + 1, _ => Act(i, Try))) == At(s, i, locks[free := i], Locked(free))
    decreases free - next
  {
    var tries := seq(free - next + 1, _ => Act(i, Try));
    var now := At(s, i, locks, Scanning(limit, next));
    assert tries == [Act(i, Try)] + seq(free - next, _ => Act(i, Try));
    RunJoins(now, [Act(i, Try)], seq(free - next, _ => Act(i, Try)));
    if next == free {
      Moves(s, i, locks, Scanning(limit, next), Try, locks[free := i], Locked(free));
    } else {
      Moves(s, i, locks, Scanning(limit, next), Try, locks, Scanning(limit, next + 1));
      TriesUpTo(s, i, locks, limit, next + 1, free);
    }
  }

  /**
   A polling process gets in with the lowest free slot within the maximum, whichever that is
   and whoever holds the others.
   */
  lemma {:induction false} LowestFreeSlotAdmits(s: System, i: nat, free: nat)
    requires i < |s.processes| && s.processes[i].Polling? && 1 <= free <= s.maximum <= MAXIMUM_BOUND
    requires free !in s.locks && forall k: nat :: 1 <= k < free ==> k in s.locks
    ensures Run(s, [Act(i, ReadLimit)] + seq(free, _ => Act(i, Try)) + [Act(i, Commit)] + [Act(i, Recheck)])
            == At(s, i, s.locks[free := i], Inside(free))
  {
    var read, tries, commit, recheck := [Act(i, ReadLimit)], seq(free, _ => Act(i, Try)), [Act(i, Commit)], [Act(i, Recheck)];
    assert At(s, i, s.locks, Polling) == s by {
      assert s.processes[i := Polling] == s.processes;
    }
    Moves(s, i, s.locks, Polling, ReadLimit, s.locks, Scanning(s.maximum, 1));
    TriesUpTo(s, i, s.locks, s.maximum, 1, free);
    Moves(s, i, s.locks[free := i], Locked(free), Commit, s.locks[free := i], Committed(free));
    Moves(s, i, s.locks[free := i], Committed(free), Recheck, s.locks[free := i], Inside(free));
    RunJoins(s, read, tries);
    RunJoins(s, read + tries, commit);
    RunJoins(s, read + tries + commit, recheck);
  }

  /** A process starts by polling, and a scan that found nothing leads to the next poll: neither touches a lock. */
  lemma PollsAgain(s: System, i: nat)
    requires i < |s.processes|
    ensures s.processes[i].Idle? ==> Perform(s, Act(i, Start)) == At(s, i, s.locks, Polling)
    ensures s.processes[i].Scanning? && s.processes[i].next > s.processes[i].limit ==>
              Perform(s, Act(i, NextRound)) == At(s, i, s.locks, Polling)
  {}

  /** How a process that holds a slot leaves: from inside by finishing, before that by giving up, after a loss by the server's notice. */
  function WayOut(i: nat, p: Process): seq<Action> {
    match p
    case Locked(_) => [Act(i, GiveUp), Act(i, Unlock)]
    case Committed(_) => [Act(i, GiveUp), Act(i, Unlock)]
    case Inside(_) => [Act(i, Finish), Act(i, Unlock)]
    case Releasing(_) => [Act(i, Unlock)]
    case Dropped(_) => [Act(i, ServerNotices)]
    case _ => []
  }

  /** From wherever a process holds a slot it can leave, in at most two steps of its own, with the slot free again. */
  lemma {:induction false} HoldersCanLeave(s: System, i: nat)
    requires i < |s.processes| && Holds(s.processes[i])
    ensures Run(s, WayOut(i, s.processes[i])) == At(s, i, s.locks - {s.processes[i].slot}, Idle)
  {
    var p := s.processes[i];
    var freed := s.locks - {p.slot};
    assert At(s, i, s.locks, p) == s by {
      assert s.processes[i := p] == s.processes;
    }
    if p.Releasing? {
      Moves(s, i, s.locks, p, Unlock, freed, Idle);
    } else if p.Dropped? {
      Moves(s, i, s.locks, p, ServerNotices, freed, Idle);
    } else {
      var first := if p.Inside? then Finish else GiveUp;
      Moves(s, i, s.locks, p, first, s.locks, Releasing(p.slot));
      Moves(s, i, s.locks, Releasing(p.slot), Unlock, freed, Idle);
      RunJoins(s, [Act(i, first)], [Act(i, Unlock)]);
      assert WayOut(i, p) == [Act(i, first)] + [Act(i, Unlock)];
    }
  }
}
