/** One admission as it runs: poll, scan the slots, recheck, and give the slot back on every failing exit. */
module NetworkAdmission {
  import opened Wrappers
  import opened AdmissionSlots

  /** What a read of the control row says: a maximum, that the network is disabled, or nothing usable. */
  datatype Reading = Maximum(n: int) | Disabled | Broken

  /** One polling round: the control row as read, and whether the transaction commits at its end. */
  datatype Round = Round(reading: Reading, commits: bool)

  /**
   What an admission meets: the control row before it connects, the polling rounds, the
   deadline at each of its checks, the row at the recheck, and whether a lock can be
   unlocked. Polling stops with a timeout when the rounds run out.
   */
  datatype Environment = Environment(enabled: Reading, rounds: seq<Round>, expired: nat -> bool, recheck: Reading, unlocks: bool)

  datatype Refusal = ConcurrencyTimeout | CoordinationFailed | NetworkDisabled

  predicate Valid(n: int) {
    1 <= n <= MAXIMUM_BOUND
  }

  /** Why a row is no ground to go on. */
  function RowRefuses(r: Reading): Option<Refusal> {
    match r
    case Disabled => Some(NetworkDisabled)
    case Broken => Some(CoordinationFailed)
    case Maximum(n) => if Valid(n) then None else Some(CoordinationFailed)
  }

  // ----- what polling comes to, with the slots others hold

  /** The lowest slot nobody holds. */
  function LowestFree(owner: map<nat, int>, from: nat, limit: int): (slot: Option<nat>)
    ensures slot.Some? ==> from <= slot.value <= limit && slot.value !in owner && forall k: nat :: from <= k < slot.value ==> k in owner
    ensures slot.None? ==> forall k: nat :: from <= k <= limit ==> k in owner
    decreases limit - from
  {
    if from > limit then None else if from !in owner then Some(from) else LowestFree(owner, from + 1, limit)
  }

  /** The deadline has passed at one of the next checks. */
  ghost predicate Expires(expired: nat -> bool, from: nat, count: int) {
    exists k: nat :: from <= k < from + count && expired(k)
  }

  /** With a slot in hand after the given number of checks. */
  function Settled(slot: nat, commits: bool, checks: nat, env: Environment): Result<nat, Refusal> {
    if !commits then Err(CoordinationFailed)
    else if env.expired(checks) then Err(ConcurrencyTimeout)
    else if RowRefuses(env.recheck).Some? then Err(RowRefuses(env.recheck).value)
    else if slot > env.recheck.n then Err(CoordinationFailed)
    else Ok(slot)
  }

  /** Every slot costs a check before and one after its lock is tried. */
  ghost function Polled(owner: map<nat, int>, env: Environment, round: nat, checks: nat): Result<nat, Refusal>
    decreases |env.rounds| - round
  {
    if round >= |env.rounds| then Err(ConcurrencyTimeout)
    else
      var now := env.rounds[round];
      if RowRefuses(now.reading).Some? then Err(CoordinationFailed)
      else
        var free := LowestFree(owner, 1, now.reading.n);
        match free
        case None =>
          if Expires(env.expired, checks, 2 * now.reading.n) then Err(ConcurrencyTimeout)
          else if !now.commits then Err(CoordinationFailed)
          else Polled(owner, env, round + 1, checks + 2 * now.reading.n)
        case Some(slot) =>
          if Expires(env.expired, checks, 2 * slot) then Err(ConcurrencyTimeout)
          else Settled(slot, now.commits, checks + 2 * slot, env)
  }

  ghost function Entered(owner: map<nat, int>, env: Environment): Result<nat, Refusal> {
    if RowRefuses(env.enabled).Some? then Err(RowRefuses(env.enabled).value)
    else if env.expired(0) then Err(ConcurrencyTimeout)
    else Polled(owner, env, 0, 1)
  }

  /** A round that found every slot taken and was committed. */
  predicate Fruitless(owner: map<nat, int>, now: Round) {
    && now.reading.Maximum? && Valid(now.reading.n) && now.commits
    && forall k: nat :: 1 <= k <= now.reading.n ==> k in owner
  }

  /** A round that finds this slot the lowest free one within the maximum it reads, and is committed. */
  predicate Finds(owner: map<nat, int>, now: Round, slot: nat) {
    && now.reading.Maximum? && Valid(now.reading.n) && now.commits
    && 1 <= slot <= now.reading.n && slot !in owner
    && forall k: nat :: 1 <= k < slot ==> k in owner
  }

  /** Granted after some fruitless rounds: the next one finds the slot, and the recheck still allows it. */
  predicate Grants(owner: map<nat, int>, env: Environment, slot: nat, from: nat, round: nat) {
    && from <= round < |env.rounds|
    && (forall i :: from <= i < round ==> Fruitless(owner, env.rounds[i]))
    && Finds(owner, env.rounds[round], slot)
    && env.recheck.Maximum? && Valid(env.recheck.n) && slot <= env.recheck.n
  }

  lemma {:induction false} PolledExactly(owner: map<nat, int>, env: Environment, from: nat, checks: nat, slot: nat)
    requires forall k: nat :: !env.expired(k)
    ensures Polled(owner, env, from, checks) == Ok(slot) <==> exists round: nat :: Grants(owner, env, slot, from, round)
    decreases |env.rounds| - from
  {
    if from < |env.rounds| {
      var now := env.rounds[from];
      if RowRefuses(now.reading).None? && LowestFree(owner, 1, now.reading.n).None? {
        PolledExactly(owner, env, from + 1, checks + 2 * now.reading.n, slot);
        if Polled(owner, env, from, checks) == Ok(slot) {
          var round: nat :| Grants(owner, env, slot, from + 1, round);
          assert Grants(owner, env, slot, from, round);
        }
        if round: nat :| Grants(owner, env, slot, from, round) {
          assert Grants(owner, env, slot, from + 1, round);
        }
      } else {
        if Polled(owner, env, from, checks) == Ok(slot) {
          assert Grants(owner, env, slot, from, from);
        }
        if round: nat :| Grants(owner, env, slot, from, round) {
          assert round == from;
        }
      }
    }
  }

  /**
   While the deadline does not pass, a slot is granted exactly if the row allows it before the
   first round and at the recheck, and some round, after others that found all slots taken,
   finds it the lowest free one.
   */
  lemma {:induction false} GrantedExactly(owner: map<nat, int>, env: Environment, slot: nat)
    requires forall k: nat :: !env.expired(k)
    ensures Entered(owner, env) == Ok(slot) <==>
              RowRefuses(env.enabled).None? && exists round: nat :: Grants(owner, env, slot, 0, round)
  {
    PolledExactly(owner, env, 0, 1, slot);
  }

  class SlotLocks {
    /** The session that holds each locked slot, and the slots whose session was discarded but not yet missed by the server. */
    var owner: map<nat, int>
    var abandoned: set<nat>

    constructor ()
      ensures owner == map[] && abandoned == {}
    {
      owner, abandoned := map[], {};
    }

    /** The locks of sessions still in use. */
    function Held(): map<nat, int>
      reads this
    {
      owner - abandoned
    }

    /** The server notices the discarded sessions. */
    method Notice()
      modifies this
      ensures owner == old(Held()) && abandoned == {}
    {
      owner := owner - abandoned;
      abandoned := {};
    }

    method TryLock(slot: nat, session: int) returns (ok: bool)
      modifies this`owner
      ensures ok <==> slot !in old(owner)
      ensures owner == if ok then old(owner)[slot := session] else old(owner)
    {
      ok := slot !in owner;
      if ok {
        owner := owner[slot := session];
      }
    }

    /** By unlocking or, when that fails, by discarding the session. */
    method GiveBack(slot: nat, unlocks: bool)
      modifies this
      ensures Held() == old(Held()) - {slot}
      ensures if unlocks then owner == old(owner) - {slot} && abandoned == old(abandoned)
              else owner == old(owner) && abandoned == old(abandoned) + {slot}
    {
      if unlocks {
        owner := owner - {slot};
      } else {
        abandoned := abandoned + {slot};
      }
    }

    /** One round over the slots: the lowest free one, unless the deadline passes. */
    method Scan(session: int, limit: int, expired: nat -> bool, checked: nat) returns (slot: Option<nat>, late: bool, checks: nat)
      modifies this`owner
      ensures slot.None? ==> owner == old(owner) && (late || forall k: nat :: 1 <= k <= limit ==> k in old(owner))
      ensures slot.Some? ==>
                && owner == old(owner)[slot.value := session] && 1 <= slot.value <= limit && slot.value !in old(owner)
                && forall k: nat :: 1 <= k < slot.value ==> k in old(owner)
      // It gets there unless a check up to its own has found the deadline passed.
      ensures slot.Some? ==> checks == checked + 2 * slot.value && !Expires(expired, checked, 2 * slot.value - 1) && late == expired(checks - 1)
      ensures slot.None? && !late && limit >= 0 ==> checks == checked + 2 * limit && !Expires(expired, checked, 2 * limit)
      ensures slot.None? && late ==>
                var free := LowestFree(old(owner), 1, limit); Expires(expired, checked, if free.Some? then 2 * free.value else 2 * limit)
    {
      slot, late, checks := None, false, checked;
      var next: nat := 1;
      while next <= limit
        invariant owner == old(owner) && forall k: nat :: 1 <= k < next ==> k in old(owner)
        invariant 1 <= next && (next <= limit + 1 || limit < 0)
        invariant slot.None? && !late && checks == checked + 2 * (next - 1) && !Expires(expired, checked, 2 * (next - 1))
      {
        ghost var free := LowestFree(old(owner), 1, limit);
        if expired(checks) {
          late := true;
          return;
        }
        var ok := TryLock(next, session);
        checks := checks + 2;
        if ok {
          slot, late := Some(next), expired(checks - 1);
          return;
        }
        if expired(checks - 1) {
          late := true;
          return;
        }
        next := next + 1;
      }
    }

    /** Up to the body of the admission: a slot is held afterwards exactly when it is granted. */
    method Enter(session: int, env: Environment) returns (r: Result<nat, Refusal>)
      requires abandoned <= owner.Keys
      modifies this
      ensures abandoned <= owner.Keys
      ensures r.Err? ==> Held() == old(Held()) && (env.unlocks ==> owner == old(owner) && abandoned == old(abandoned))
      ensures r.Ok? ==>
                && owner == old(owner)[r.value := session] && abandoned == old(abandoned) && r.value !in old(owner)
                && RowRefuses(env.enabled).None? && env.recheck.Maximum? && 1 <= r.value <= env.recheck.n <= MAXIMUM_BOUND
                && forall k: nat :: 1 <= k < r.value ==> k in old(owner)
      ensures r == Entered(old(owner), env)
    {
      var refused := RowRefuses(env.enabled);
      if refused.Some? {
        return Err(refused.value);
      }
      if env.expired(0) {
        return Err(ConcurrencyTimeout);
      }
      var round, checks: nat := 0, 1;
      while round < |env.rounds|
        invariant 0 <= round <= |env.rounds| && owner == old(owner) && abandoned == old(abandoned)
        invariant Entered(old(owner), env) == Polled(old(owner), env, round, checks)
      {
        var now := env.rounds[round];
        if !now.reading.Maximum? || !Valid(now.reading.n) {
          return Err(CoordinationFailed);
        }
        var slot, late;
        slot, late, checks := Scan(session, now.reading.n, env.expired, checks);
        if slot.Some? {
          r := Settle(slot.value, late, now.commits, env.expired(checks), env);
          return;
        }
        if late {
          return Err(ConcurrencyTimeout);
        }
        if !now.commits {
          return Err(CoordinationFailed);
        }
        round := round + 1;
      }
      r := Err(ConcurrencyTimeout);
    }

    /** With a slot in hand: commit, check the deadline, recheck the row; anything wrong gives the slot back. */
    method Settle(slot: nat, late: bool, commits: bool, lateAfterCommit: bool, env: Environment) returns (r: Result<nat, Refusal>)
      modifies this
      ensures r.Err? ==>
                && Held() == old(Held()) - {slot}
                && (if env.unlocks then owner == old(owner) - {slot} && abandoned == old(abandoned)
                    else owner == old(owner) && abandoned == old(abandoned) + {slot})
      ensures r.Ok? ==>
                && r.value == slot && owner == old(owner) && abandoned == old(abandoned)
                && env.recheck.Maximum? && slot <= env.recheck.n <= MAXIMUM_BOUND
      ensures late ==> r == Err(ConcurrencyTimeout)
      ensures !late ==> forall checks: nat :: lateAfterCommit == env.expired(checks) ==> r == Settled(slot, commits, checks, env)
    {
      var refused := RowRefuses(env.recheck);
      if late {
        r := Err(ConcurrencyTimeout);
      } else if !commits {
        r := Err(CoordinationFailed);
      } else if lateAfterCommit {
        r := Err(ConcurrencyTimeout);
      } else if refused.Some? {
        r := Err(refused.value);
      } else if slot > env.recheck.n {
        r := Err(CoordinationFailed);
      } else {
        r := Ok(slot);
      }
      if r.Err? {
        GiveBack(slot, env.unlocks);
      }
    }

    /** A whole admission around a body that may raise: once the server notices any discarded session, the locks are as before. */
    method Admission(session: int, env: Environment) returns (r: Result<nat, Refusal>)
      requires abandoned <= owner.Keys
      modifies this
      ensures Held() == old(Held()) && (env.unlocks ==> owner == old(owner) && abandoned == old(abandoned))
    {
      r := Enter(session, env);
      if r.Ok? {
        GiveBack(r.value, env.unlocks);
      }
    }
  }
}
