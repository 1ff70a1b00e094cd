/**
 The two-clock freshness checker as a state machine: every sample reads UTC
 (microseconds) and the same-boot monotonic clock (nanoseconds), and neither may
 extend a deadline. Once anything is wrong, the clock is poisoned for good.
 */
module ClockRules {
  import opened Wrappers

  const MAX_CONSUMERS := 4
  const MAX_WATCHED := 64

  /** An intent that depends on this clock. */
  type Key = nat

  datatype Reading = Reading(at: int, ns: int)

  datatype Mark = Mark(at: int, ns: int, domain: int)

  datatype Window = Window(start: int, end: int)

  /** A deadline relative to a mark: an age limit, an absolute end, or both. */
  datatype Boundary = Boundary(mark: Mark, seconds: Option<int>, end: Option<int>)

  /** Something watched, with the intents that were active when it was registered. */
  datatype Watched<T> = Watched(item: T, consumers: set<Key>)

  /** `recorded` is the durable fault table; `saved` the stack of open dependency blocks. */
  datatype Clock = Clock(
    domain: int, last: Option<Reading>, windows: seq<Watched<Window>>, boundaries: seq<Watched<Boundary>>,
    consumers: set<Key>, active: set<Key>, saved: seq<set<Key>>, poisoned: bool, recorded: set<Key>)

  datatype Error = Invalidated | ClockInvalid | IntentExpired | Anomaly | VerificationExpired | LimitReached

  function New(domain: int, recorded: set<Key>): Clock {
    Clock(domain, None, [], [], {}, {}, [], false, recorded)
  }

  predicate Contains(w: Window, at: int) {
    w.start <= at < w.end
  }

  /** The mark belongs to this boot and lies in the past. */
  predicate Genuine(m: Mark, domain: int, now: Reading) {
    m.domain == domain && 0 <= m.ns <= now.ns && m.at <= now.at
  }

  /** Neither clock has reached the deadline. */
  predicate Pending(b: Boundary, now: Reading) {
    && (b.end.Some? ==> now.at < b.end.value && now.ns - b.mark.ns < (b.end.value - b.mark.at) * 1_000)
    && (b.seconds.Some? ==> now.at < b.mark.at + b.seconds.value * 1_000_000 && now.ns - b.mark.ns < b.seconds.value * 1_000_000_000)
  }

  /** Poisons the clock and records a fault for those of its consumers. */
  function Invalidate(c: Clock, keys: set<Key>): Clock {
    c.(poisoned := true, recorded := c.recorded + c.consumers * keys)
  }

  datatype Finding = Fine | Wrong(error: Error, consumers: set<Key>)

  /** The first window, in order, that the time is outside of. */
  function CheckWindows(windows: seq<Watched<Window>>, at: int): Finding {
    if windows == [] then Fine
    else if !Contains(windows[0].item, at) then Wrong(IntentExpired, windows[0].consumers)
    else CheckWindows(windows[1..], at)
  }

  /** One boundary; an anomaly concerns all consumers, an expiry those of the boundary. */
  function CheckBoundary(domain: int, everyone: set<Key>, b: Boundary, consumers: set<Key>, now: Reading): Finding {
    if !Genuine(b.mark, domain, now) then Wrong(Anomaly, everyone)
    else if !Pending(b, now) then Wrong(VerificationExpired, consumers)
    else Fine
  }

  function CheckBoundaries(domain: int, everyone: set<Key>, boundaries: seq<Watched<Boundary>>, now: Reading): Finding {
    if boundaries == [] then Fine
    else
      var f := CheckBoundary(domain, everyone, boundaries[0].item, boundaries[0].consumers, now);
      if f.Wrong? then f else CheckBoundaries(domain, everyone, boundaries[1..], now)
  }

  predicate GoesBack(c: Clock, now: Reading) {
    now.ns < 0 || (c.last.Some? && (now.at < c.last.value.at || now.ns < c.last.value.ns))
  }

  function Settle(c: Clock, f: Finding): (Clock, Option<Error>) {
    if f.Fine? then (c, None) else (Invalidate(c, f.consumers), Some(f.error))
  }

  /** One reading of both clocks. */
  function Sample(c: Clock, now: Reading): (Clock, Option<Error>) {
    if c.poisoned then (c, Some(Invalidated))
    else if GoesBack(c, now) then (Invalidate(c, c.consumers), Some(ClockInvalid))
    else
      var read := c.(last := Some(now));
      var f := CheckWindows(c.windows, now.at);
      Settle(read, if f.Wrong? then f else CheckBoundaries(c.domain, c.consumers, c.boundaries, now))
  }

  function IndexOf<T(==)>(entries: seq<Watched<T>>, item: T): (i: nat)
    ensures i <= |entries| && (i < |entries| ==> entries[i].item == item)
    ensures forall j :: 0 <= j < i ==> entries[j].item != item
  {
    if entries == [] || entries[0].item == item then 0 else 1 + IndexOf(entries[1..], item)
  }

  /** The entry gains the consumers, or becomes a new last one. */
  function Watch<T(==)>(entries: seq<Watched<T>>, item: T, consumers: set<Key>): seq<Watched<T>> {
    var i := IndexOf(entries, item);
    if i < |entries| then entries[i := Watched(item, entries[i].consumers + consumers)]
    else entries + [Watched(item, consumers)]
  }

  predicate Full(c: Clock) {
    |c.windows| + |c.boundaries| >= MAX_WATCHED
  }

  function WatchWindow(c: Clock, w: Window): (Clock, Option<Error>) {
    if IndexOf(c.windows, w) == |c.windows| && Full(c) then (c, Some(LimitReached))
    else (c.(windows := Watch(c.windows, w, c.active)), None)
  }

  /** Checks a mark against both clocks and, if it has a deadline, keeps watching it. */
  function CheckMark(c: Clock, b: Boundary, now: Reading): (Clock, Option<Error>) {
    var (sampled, e) := Sample(c, now);
    if e.Some? then (sampled, e)
    else
      var (judged, f) := Settle(sampled, CheckBoundary(sampled.domain, sampled.consumers, b, sampled.active, now));
      if f.Some? then (judged, f)
      else if b.seconds.None? && b.end.None? then (judged, None)
      else if IndexOf(judged.boundaries, b) == |judged.boundaries| && Full(judged) then (judged, Some(LimitReached))
      else (judged.(boundaries := Watch(judged.boundaries, b, judged.active)), None)
  }

  function BindIntent(c: Clock, key: Key): (Clock, Option<Error>) {
    if key !in c.consumers && |c.consumers| >= MAX_CONSUMERS then (c, Some(LimitReached))
    else (c.(consumers := c.consumers + {key}, active := c.active + {key}), None)
  }

  function Enter(c: Clock): Clock {
    c.(saved := c.saved + [c.active])
  }

  function Leave(c: Clock): Clock {
    if c.saved == [] then c else c.(active := c.saved[|c.saved| - 1], saved := c.saved[..|c.saved| - 1])
  }

  datatype Op = Read(now: Reading) | WatchFor(w: Window) | Check(b: Boundary, now: Reading) | Bind(key: Key) | Open | Close

  function Perform(c: Clock, op: Op): (Clock, Option<Error>) {
    match op
    case Read(now) => Sample(c, now)
    case WatchFor(w) => WatchWindow(c, w)
    case Check(b, now) => CheckMark(c, b, now)
    case Bind(key) => BindIntent(c, key)
    case Open => (Enter(c), None)
    case Close => (Leave(c), None)
  }

  function Run(c: Clock, ops: seq<Op>): Clock
    decreases |ops|
  {
    if ops == [] then c else Run(Perform(c, ops[0]).0, ops[1..])
  }
}
