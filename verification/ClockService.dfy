/** The freshness checker as the object whose fields every sample moves. */
module ClockService {
  import opened Wrappers
  import R = ClockRules

  class Clock {
    const domain: int
    var last: Option<R.Reading>
    var windows: seq<R.Watched<R.Window>>
    var boundaries: seq<R.Watched<R.Boundary>>
    var consumers: set<R.Key>
    var active: set<R.Key>
    var saved: seq<set<R.Key>>
    var poisoned: bool
    var recorded: set<R.Key>

    constructor (domain: int, recorded: set<R.Key>)
      ensures State() == R.New(domain, recorded)
    {
      this.domain, this.recorded := domain, recorded;
      last, windows, boundaries, consumers, active, saved, poisoned := None, [], [], {}, {}, [], false;
    }

    ghost function State(): R.Clock
      reads this
    {
      R.Clock(domain, last, windows, boundaries, consumers, active, saved, poisoned, recorded)
    }

    /** Poisons the clock and records a fault for each of its consumers among the keys. */
    method Invalidate(keys: set<R.Key>)
      modifies this
      ensures State() == R.Invalidate(old(State()), keys)
    {
      poisoned := true;
      var rest := consumers;
      while rest != {}
        invariant rest <= consumers && State() == old(State()).(poisoned := true, recorded := recorded)
        invariant recorded == old(recorded) + (consumers - rest) * keys
        decreases |rest|
      {
        var key :| key in rest;
        rest := rest - {key};
        if key in keys {
          recorded := recorded + {key};
        }
      }
    }

    /** Reads both clocks. */
    method Sample(now: R.Reading) returns (e: Option<R.Error>)
      modifies this
      ensures (State(), e) == R.Sample(old(State()), now)
    {
      if poisoned {
        return Some(R.Invalidated);
      }
      if now.ns < 0 || (last.Some? && (now.at < last.value.at || now.ns < last.value.ns)) {
        Invalidate(consumers);
        return Some(R.ClockInvalid);
      }
      last := Some(now);
      e := SampleWindows(now.at);
      if e.None? {
        e := SampleBoundaries(now);
      }
    }

    method SampleWindows(at: int) returns (e: Option<R.Error>)
      modifies this
      ensures (State(), e) == R.Settle(old(State()), R.CheckWindows(old(windows), at))
    {
      var i := 0;
      while i < |windows|
        invariant 0 <= i <= |windows| && State() == old(State())
        invariant R.CheckWindows(windows[i..], at) == R.CheckWindows(windows, at)
      {
        var w := windows[i];
        if !(w.item.start <= at < w.item.end) {
          Invalidate(w.consumers);
          return Some(R.IntentExpired);
        }
        i := i + 1;
      }
      e := None;
    }

    method SampleBoundaries(now: R.Reading) returns (e: Option<R.Error>)
      modifies this
      ensures (State(), e) == R.Settle(old(State()), R.CheckBoundaries(domain, old(consumers), old(boundaries), now))
    {
      var i := 0;
      while i < |boundaries|
        invariant 0 <= i <= |boundaries| && State() == old(State())
        invariant R.CheckBoundaries(domain, consumers, boundaries[i..], now) == R.CheckBoundaries(domain, consumers, boundaries, now)
      {
        var b := boundaries[i];
        e := Check(b.item, b.consumers, now);
        if e.Some? {
          return;
        }
        i := i + 1;
      }
      e := None;
    }

    /** Judges one mark; an expiry faults the given consumers. */
    method Check(b: R.Boundary, affected: set<R.Key>, now: R.Reading) returns (e: Option<R.Error>)
      modifies this
      ensures (State(), e) == R.Settle(old(State()), R.CheckBoundary(domain, old(consumers), b, affected, now))
    {
      if b.mark.domain != domain || b.mark.ns < 0 || now.ns < b.mark.ns || now.at < b.mark.at {
        Invalidate(consumers);
        return Some(R.Anomaly);
      }
      var elapsed := now.ns - b.mark.ns;
      if b.end.Some? && (now.at >= b.end.value || elapsed >= (b.end.value - b.mark.at) * 1_000) {
        Invalidate(affected);
        return Some(R.VerificationExpired);
      }
      if b.seconds.Some? && (now.at >= b.mark.at + b.seconds.value * 1_000_000 || elapsed >= b.seconds.value * 1_000_000_000) {
        Invalidate(affected);
        return Some(R.VerificationExpired);
      }
      e := None;
    }

    method BindIntent(key: R.Key) returns (e: Option<R.Error>)
      modifies this
      ensures (State(), e) == R.BindIntent(old(State()), key)
    {
      if key !in consumers && |consumers| >= R.MAX_CONSUMERS {
        return Some(R.LimitReached);
      }
      consumers := consumers + {key};
      active := active + {key};
      e := None;
    }

    /** A dependency block: what becomes active inside it is forgotten when it is left. */
    method EnterDependency()
      modifies this
      ensures State() == R.Enter(old(State()))
    {
      saved := saved + [active];
    }

    method LeaveDependency()
      modifies this
      ensures State() == R.Leave(old(State()))
    {
      if saved != [] {
        active, saved := saved[|saved| - 1], saved[..|saved| - 1];
      }
    }

    method WatchWindow(w: R.Window) returns (e: Option<R.Error>)
      modifies this
      ensures (State(), e) == R.WatchWindow(old(State()), w)
    {
      var i := R.IndexOf(windows, w);
      if i == |windows| && |windows| + |boundaries| >= R.MAX_WATCHED {
        return Some(R.LimitReached);
      }
      windows := R.Watch(windows, w, active);
      e := None;
    }

    /** Samples, judges the mark, and keeps watching it when it has a deadline. */
    method CheckMark(b: R.Boundary, now: R.Reading) returns (e: Option<R.Error>)
      modifies this
      ensures (State(), e) == R.CheckMark(old(State()), b, now)
    {
      e := Sample(now);
      if e.Some? {
        return;
      }
      e := Check(b, active, now);
      if e.Some? || (b.seconds.None? && b.end.None?) {
        return;
      }
      if R.IndexOf(boundaries, b) == |boundaries| && |boundaries| + |windows| >= R.MAX_WATCHED {
        return Some(R.LimitReached);
      }
      boundaries := R.Watch(boundaries, b, active);
    }
  }
}
