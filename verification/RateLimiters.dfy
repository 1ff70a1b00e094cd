/** The limiters as they run: one dictionary under a lock, one table under retries. */
module RateLimiters {
  import opened Wrappers
  import opened RateLimits

  class InMemoryRateLimiter {
    const platform: real
    var lastReservedAt: map<string, real>

    constructor (platform: real)
      ensures this.platform == platform && lastReservedAt == map[]
    {
      this.platform, lastReservedAt := platform, map[];
    }

    /** Reserves a slot and returns how long to sleep before it. */
    method Wait(key: string, requested: real, now: real) returns (r: Result<real, Error>)
      requires platform > 0.0
      modifies this
      ensures requested <= 0.0 ==> r == Err(ConfigurationError) && lastReservedAt == old(lastReservedAt)
      ensures requested > 0.0 ==>
                var x := Reserve(InMemory, Known(old(lastReservedAt), key), Interval(platform, requested), now);
                lastReservedAt == old(lastReservedAt)[key := x.1] && r == Ok(Delay(x.0, now)) && now + Delay(x.0, now) == x.0
    {
      if requested <= 0.0 {
        return Err(ConfigurationError);
      }
      var interval := Interval(platform, requested);
      var last := if key in lastReservedAt then lastReservedAt[key] else now - interval;
      var nextAllowed := last + interval;
      lastReservedAt := lastReservedAt[key := MaxReal(now, nextAllowed)];
      r := Ok(MaxReal(0.0, nextAllowed - now));
    }
  }

  /** What becomes of one attempt at the upsert: nothing, a commit that is reported, or a commit that is not. */
  datatype Fate = Failed | Committed | Unreported

  /** An attempt's fate and the two clock readings inside its statement. */
  datatype Attempt = Attempt(fate: Fate, now: real, read: real)

  datatype Granted = Granted(slot: real, delay: real)

  /** What the attempts leave in the table, and what the caller is told. */
  function Retry(known: map<string, real>, key: string, interval: real, attempts: seq<Attempt>): (map<string, real>, Option<Granted>)
    decreases |attempts|
  {
    if attempts == [] then (known, None)
    else
      var a := attempts[0];
      var x := Reserve(Postgres, Known(known, key), interval, a.now);
      if a.fate == Failed then Retry(known, key, interval, attempts[1..])
      else if a.fate == Unreported then Retry(known[key := x.1], key, interval, attempts[1..])
      else (known[key := x.1], Some(Granted(x.0, Delay(x.0, a.read))))
  }

  class PostgresRateLimiter {
    const platform: real
    var nextAllowedAt: map<string, real>

    constructor (platform: real)
      ensures this.platform == platform && nextAllowedAt == map[]
    {
      this.platform, nextAllowedAt := platform, map[];
    }

    /** One transaction; no result when it is not known to have committed. */
    method ReserveOnce(key: string, interval: real, a: Attempt) returns (delay: Option<real>)
      modifies this
      ensures var x := Reserve(Postgres, Known(old(nextAllowedAt), key), interval, a.now);
              && nextAllowedAt == (if a.fate == Failed then old(nextAllowedAt) else old(nextAllowedAt)[key := x.1])
              && delay == (if a.fate == Committed then Some(Delay(x.0, a.read)) else None)
    {
      if a.fate == Failed {
        return None;
      }
      if key !in nextAllowedAt {
        nextAllowedAt := nextAllowedAt[key := a.now + interval];
      } else {
        nextAllowedAt := nextAllowedAt[key := MaxReal(nextAllowedAt[key], a.now) + interval];
      }
      delay := if a.fate == Committed then Some(MaxReal(0.0, nextAllowedAt[key] - interval - a.read)) else None;
    }

    /** Retries as often as there are attempts. */
    method ReserveDelay(key: string, requested: real, attempts: seq<Attempt>) returns (r: Result<real, Error>)
      requires platform > 0.0
      modifies this
      ensures requested <= 0.0 ==> r == Err(ConfigurationError) && nextAllowedAt == old(nextAllowedAt)
      ensures requested > 0.0 ==>
                var (known, granted) := Retry(old(nextAllowedAt), key, Interval(platform, requested), attempts);
                nextAllowedAt == known && r == if granted.Some? then Ok(granted.value.delay) else Err(CoordinationError)
    {
      if requested <= 0.0 {
        return Err(ConfigurationError);
      }
      var interval := Interval(platform, requested);
      var n := 0;
      while n < |attempts|
        invariant 0 <= n <= |attempts|
        invariant Retry(nextAllowedAt, key, interval, attempts[n..]) == Retry(old(nextAllowedAt), key, interval, attempts)
      {
        var delay := ReserveOnce(key, interval, attempts[n]);
        if delay.Some? {
          return Ok(delay.value);
        }
        n := n + 1;
      }
      r := Err(CoordinationError);
    }
  }

  // ----- retries are runs

  /** The reservations that attempts make, as requests: those that commit, up to the first that is reported. */
  function Made(key: string, rate: real, attempts: seq<Attempt>): (requests: seq<Request>)
    ensures forall i :: 0 <= i < |requests| ==> requests[i].key == key && requests[i].rate == rate
  {
    if attempts == [] then []
    else
      var a := attempts[0];
      if a.fate == Failed then Made(key, rate, attempts[1..])
      else [Request(key, rate, a.now)] + (if a.fate == Committed then [] else Made(key, rate, attempts[1..]))
  }

  /** The table after reservations in these slots. */
  function After(known: map<string, real>, key: string, interval: real, slots: seq<real>): map<string, real> {
    if slots == [] then known else known[key := slots[|slots| - 1] + interval]
  }

  lemma AfterOne(known: map<string, real>, key: string, interval: real, slot: real, slots: seq<real>)
    ensures After(known, key, interval, [slot] + slots) == After(known[key := slot + interval], key, interval, slots)
  {}

  /** How the retries relate to a run that made these slots. */
  predicate Accounted(known: map<string, real>, key: string, interval: real, slots: seq<real>, outcome: (map<string, real>, Option<Granted>)) {
    && outcome.0 == After(known, key, interval, slots)
    && (outcome.1.Some? ==> slots != [] && outcome.1.value.slot == slots[|slots| - 1])
  }

  lemma AccountedStep(known: map<string, real>, key: string, interval: real, slot: real, slots: seq<real>, outcome: (map<string, real>, Option<Granted>))
    requires Accounted(known[key := slot + interval], key, interval, slots, outcome)
    ensures Accounted(known, key, interval, [slot] + slots, outcome)
  {
    AfterOne(known, key, interval, slot, slots);
  }

  /** However many attempts commit unreported, all the reservations they make are slots of one run, and the granted one is the last. */
  lemma {:induction false} RetriesAreARun(platform: real, known: map<string, real>, key: string, rate: real, attempts: seq<Attempt>)
    requires platform > 0.0 && rate > 0.0
    ensures Accounted(known, key, Interval(platform, rate), Slots(Postgres, platform, known, Made(key, rate, attempts)),
                      Retry(known, key, Interval(platform, rate), attempts))
    decreases |attempts|
  {
    if attempts != [] {
      var a, d := attempts[0], Interval(platform, rate);
      var x, rest := Reserve(Postgres, Known(known, key), d, a.now), Made(key, rate, attempts[1..]);
      if a.fate == Failed {
        RetriesAreARun(platform, known, key, rate, attempts[1..]);
      } else if a.fate == Unreported {
        RetriesAreARun(platform, known[key := x.1], key, rate, attempts[1..]);
        FirstSlot(platform, known, Request(key, rate, a.now), rest);
        AccountedStep(known, key, d, x.0, Slots(Postgres, platform, known[key := x.1], rest), Retry(known, key, d, attempts));
      } else {
        FirstSlot(platform, known, Request(key, rate, a.now), []);
      }
    }
  }

  lemma FirstSlot(platform: real, known: map<string, real>, q: Request, rest: seq<Request>)
    requires platform > 0.0 && q.rate > 0.0 && forall i :: 0 <= i < |rest| ==> rest[i].rate > 0.0
    ensures var x := Reserve(Postgres, Known(known, q.key), Interval(platform, q.rate), q.now);
            Slots(Postgres, platform, known, [q] + rest) == [x.0] + Slots(Postgres, platform, known[q.key := x.1], rest)
  {
    assert ([q] + rest)[1..] == rest;
  }

  /** A caller who waits its delay wakes no earlier than its slot, however the clock was read. */
  lemma {:induction false} WakesAfterSlot(known: map<string, real>, key: string, interval: real, attempts: seq<Attempt>)
    ensures var granted := Retry(known, key, interval, attempts).1;
            granted.Some? ==>
              exists a :: a in attempts && a.fate == Committed && a.read + granted.value.delay == MaxReal(a.read, granted.value.slot)
    decreases |attempts|
  {
    if attempts != [] {
      var a := attempts[0];
      var x := Reserve(Postgres, Known(known, key), interval, a.now);
      assert a in attempts && (a.fate == Committed ==> a.read + Delay(x.0, a.read) == MaxReal(a.read, x.0));
      WakesAfterSlot(if a.fate == Unreported then known[key := x.1] else known, key, interval, attempts[1..]);
    }
  }
}
