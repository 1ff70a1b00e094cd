/** What the freshness checker guarantees, sample by sample and over whole runs. */
module ClockFreshness {
  import opened Wrappers
  import opened ClockRules

  /** Every deadline the clock watches still holds for the reading. */
  ghost predicate AllFresh(c: Clock, now: Reading) {
    && (forall i :: 0 <= i < |c.windows| ==> Contains(c.windows[i].item, now.at))
    && (forall i :: 0 <= i < |c.boundaries| ==>
          Genuine(c.boundaries[i].item.mark, c.domain, now) && Pending(c.boundaries[i].item, now))
  }

  lemma {:induction false} WindowsAreChecked(windows: seq<Watched<Window>>, at: int)
    ensures CheckWindows(windows, at) == Fine <==> forall i :: 0 <= i < |windows| ==> Contains(windows[i].item, at)
  {
    if windows != [] {
      WindowsAreChecked(windows[1..], at);
      assert forall i :: 0 < i < |windows| ==> windows[i] == windows[1..][i - 1];
      assert forall i :: 0 <= i < |windows| - 1 ==> windows[1..][i] == windows[i + 1];
    }
  }

  lemma {:induction false} BoundariesAreChecked(c: Clock, boundaries: seq<Watched<Boundary>>, now: Reading)
    ensures CheckBoundaries(c.domain, c.consumers, boundaries, now) == Fine <==>
              forall i :: 0 <= i < |boundaries| ==> CheckBoundary(c.domain, c.consumers, boundaries[i].item, boundaries[i].consumers, now) == Fine
  {
    if boundaries != [] {
      BoundariesAreChecked(c, boundaries[1..], now);
      assert forall i :: 0 < i < |boundaries| ==> boundaries[i] == boundaries[1..][i - 1];
      assert forall i :: 0 <= i < |boundaries| - 1 ==> boundaries[1..][i] == boundaries[i + 1];
    }
  }

  /** A sample succeeds exactly when nothing was wrong before, neither clock went back, and every deadline still holds. */
  lemma SampleSucceedsExactly(c: Clock, now: Reading)
    ensures Sample(c, now).1 == None <==> !c.poisoned && !GoesBack(c, now) && AllFresh(c, now)
    ensures Sample(c, now).1 == None ==> Sample(c, now).0 == c.(last := Some(now))
  {
    WindowsAreChecked(c.windows, now.at);
    BoundariesAreChecked(c, c.boundaries, now);
  }

  /** Every failed sample poisons, and every other failure but a full registry does. */
  lemma FailuresPoison(c: Clock, op: Op)
    requires Perform(c, op).1.Some? && Perform(c, op).1 != Some(LimitReached)
    ensures Perform(c, op).0.poisoned
  {
    WindowsAreChecked(c.windows, if op.Read? || op.Check? then op.now.at else 0);
  }

  lemma {:induction false} PoisonedStays(c: Clock, ops: seq<Op>)
    requires c.poisoned
    ensures Run(c, ops).poisoned
    decreases |ops|
  {
    if ops != [] {
      PoisonedStays(Perform(c, ops[0]).0, ops[1..]);
    }
  }

  /** After any expiry or anomaly, no later sample or check succeeds, whatever the clocks read. */
  lemma NothingSucceedsAfterFailure(c: Clock, op: Op, ops: seq<Op>, later: Op)
    requires Perform(c, op).1.Some? && Perform(c, op).1 != Some(LimitReached)
    requires later.Read? || later.Check?
    ensures Perform(Run(Perform(c, op).0, ops), later).1 == Some(Invalidated)
  {
    FailuresPoison(c, op);
    PoisonedStays(Perform(c, op).0, ops);
  }

  // ----- monotonicity over runs

  predicate Later(a: Option<Reading>, b: Option<Reading>) {
    a.Some? ==> b.Some? && a.value.at <= b.value.at && a.value.ns <= b.value.ns
  }

  lemma {:induction false} RunGoesForward(c: Clock, ops: seq<Op>)
    ensures Later(c.last, Run(c, ops).last)
    decreases |ops|
  {
    if ops != [] {
      RunGoesForward(Perform(c, ops[0]).0, ops[1..]);
    }
  }

  /** Successful samples never go backwards on either clock. */
  lemma SamplesGoForward(c: Clock, first: Reading, between: seq<Op>, second: Reading)
    requires Sample(c, first).1 == None
    requires Sample(Run(Sample(c, first).0, between), second).1 == None
    ensures first.at <= second.at && first.ns <= second.ns
  {
    SampleSucceedsExactly(c, first);
    RunGoesForward(Sample(c, first).0, between);
    SampleSucceedsExactly(Run(Sample(c, first).0, between), second);
  }

  // ----- what is watched stays watched

  predicate Watches<T(==)>(entries: seq<Watched<T>>, item: T) {
    IndexOf(entries, item) < |entries|
  }

  lemma IndexOfIs<T>(entries: seq<Watched<T>>, item: T, i: nat)
    requires i < |entries| && entries[i].item == item
    ensures IndexOf(entries, item) <= i
  {}

  lemma WatchKeeps<T>(entries: seq<Watched<T>>, item: T, consumers: set<Key>, other: T)
    ensures Watches(Watch(entries, item, consumers), item)
    ensures Watches(entries, other) ==> Watches(Watch(entries, item, consumers), other)
  {
    var i, after := IndexOf(entries, item), Watch(entries, item, consumers);
    IndexOfIs(after, item, i);
    if Watches(entries, other) {
      IndexOfIs(after, other, IndexOf(entries, other));
    }
  }

  lemma {:induction false} StaysWatched(c: Clock, ops: seq<Op>, w: Window)
    requires Watches(c.windows, w)
    ensures Watches(Run(c, ops).windows, w)
    decreases |ops|
  {
    if ops != [] {
      if ops[0].WatchFor? {
        WatchKeeps(c.windows, ops[0].w, c.active, w);
      }
      StaysWatched(Perform(c, ops[0]).0, ops[1..], w);
    }
  }

  lemma CheckKeepsWatched(c: Clock, b: Boundary, now: Reading, other: Boundary)
    requires Watches(c.boundaries, other)
    ensures Watches(CheckMark(c, b, now).0.boundaries, other)
  {
    WatchKeeps(c.boundaries, b, c.active, other);
  }

  lemma {:induction false} StaysBounded(c: Clock, ops: seq<Op>, b: Boundary)
    requires Watches(c.boundaries, b)
    ensures Watches(Run(c, ops).boundaries, b)
    decreases |ops|
  {
    if ops != [] {
      if ops[0].Check? {
        CheckKeepsWatched(c, ops[0].b, ops[0].now, b);
      }
      StaysBounded(Perform(c, ops[0]).0, ops[1..], b);
    }
  }

  /** Once a window is watched, every later successful sample lies inside it. */
  lemma SamplesStayInWindow(c: Clock, w: Window, between: seq<Op>, now: Reading)
    requires WatchWindow(c, w).1 == None
    requires Sample(Run(WatchWindow(c, w).0, between), now).1 == None
    ensures w.start <= now.at < w.end
  {
    WatchKeeps(c.windows, w, c.active, w);
    var d := Run(WatchWindow(c, w).0, between);
    StaysWatched(WatchWindow(c, w).0, between, w);
    SampleSucceedsExactly(d, now);
    assert Contains(d.windows[IndexOf(d.windows, w)].item, now.at);
  }

  /** Once a mark with a deadline has been checked, every later successful sample precedes the deadline on both clocks. */
  lemma SamplesStayBeforeDeadline(c: Clock, b: Boundary, checked: Reading, between: seq<Op>, now: Reading)
    requires b.seconds.Some? || b.end.Some?
    requires CheckMark(c, b, checked).1 == None
    requires Sample(Run(CheckMark(c, b, checked).0, between), now).1 == None
    ensures Genuine(b.mark, c.domain, now) && Pending(b, now)
  {
    var first := CheckMark(c, b, checked).0;
    SampleSucceedsExactly(c, checked);
    WatchKeeps(c.boundaries, b, c.active, b);
    var d := Run(first, between);
    StaysBounded(first, between, b);
    SameDomain(first, between);
    SampleSucceedsExactly(d, now);
    assert d.boundaries[IndexOf(d.boundaries, b)].item == b;
  }

  lemma {:induction false} SameDomain(c: Clock, ops: seq<Op>)
    ensures Run(c, ops).domain == c.domain
    decreases |ops|
  {
    if ops != [] {
      SameDomain(Perform(c, ops[0]).0, ops[1..]);
    }
  }

  // ----- who is faulted

  ghost predicate Subscribed(c: Clock) {
    && c.active <= c.consumers && |c.consumers| <= MAX_CONSUMERS && |c.windows| + |c.boundaries| <= MAX_WATCHED
    && (forall i :: 0 <= i < |c.saved| ==> c.saved[i] <= c.consumers)
    && KnownTo(c.windows, c.consumers) && KnownTo(c.boundaries, c.consumers)
  }

  predicate KnownTo<T(==)>(entries: seq<Watched<T>>, known: set<Key>) {
    forall i :: 0 <= i < |entries| ==> entries[i].consumers <= known
  }

  lemma WatchKeepsKnown<T>(entries: seq<Watched<T>>, item: T, consumers: set<Key>, known: set<Key>)
    requires KnownTo(entries, known) && consumers <= known
    ensures KnownTo(Watch(entries, item, consumers), known)
    ensures |Watch(entries, item, consumers)| == |entries| + (if IndexOf(entries, item) < |entries| then 0 else 1)
  {}

  lemma CheckKeepsSubscribed(c: Clock, b: Boundary, now: Reading)
    requires Subscribed(c)
    ensures Subscribed(CheckMark(c, b, now).0)
  {
    WatchKeepsKnown(c.boundaries, b, c.active, c.consumers);
  }

  lemma PerformKeepsSubscribed(c: Clock, op: Op)
    requires Subscribed(c)
    ensures Subscribed(Perform(c, op).0)
  {
    match op
    case WatchFor(w) => WatchKeepsKnown(c.windows, w, c.active, c.consumers);
    case Check(b, now) => CheckKeepsSubscribed(c, b, now);
    case _ =>
  }

  lemma {:induction false} RunKeepsSubscribed(c: Clock, ops: seq<Op>)
    requires Subscribed(c)
    ensures Subscribed(Run(c, ops))
    decreases |ops|
  {
    if ops != [] {
      PerformKeepsSubscribed(c, ops[0]);
      RunKeepsSubscribed(Perform(c, ops[0]).0, ops[1..]);
    }
  }

  function ConsumersOf<T(==)>(entries: seq<Watched<T>>, item: T): set<Key> {
    var i := IndexOf(entries, item);
    if i < |entries| then entries[i].consumers else {}
  }

  lemma WatchAddsConsumers<T>(entries: seq<Watched<T>>, item: T, consumers: set<Key>, other: T)
    ensures ConsumersOf(Watch(entries, item, consumers), other)
            == ConsumersOf(entries, other) + (if other == item then consumers else {})
  {
    var after, i, k := Watch(entries, item, consumers), IndexOf(entries, item), IndexOf(entries, other);
    if k < |entries| {
      IndexOfIs(after, other, k);
    } else if other == item {
      IndexOfIs(after, other, |entries|);
    }
  }

  /** The intents active at any of the registrations of the window during the run. */
  function ActiveForWindow(c: Clock, ops: seq<Op>, w: Window): set<Key>
    decreases |ops|
  {
    if ops == [] then {}
    else
      var (next, e) := Perform(c, ops[0]);
      (if ops[0] == WatchFor(w) && e.None? then c.active else {}) + ActiveForWindow(next, ops[1..], w)
  }

  /** The intents active at any of the registrations of the boundary during the run. */
  function ActiveForBoundary(c: Clock, ops: seq<Op>, b: Boundary): set<Key>
    decreases |ops|
  {
    if ops == [] then {}
    else
      var (next, e) := Perform(c, ops[0]);
      (if ops[0].Check? && ops[0].b == b && e.None? && (b.seconds.Some? || b.end.Some?) then c.active else {})
      + ActiveForBoundary(next, ops[1..], b)
  }

  lemma {:induction false} WindowConsumers(c: Clock, ops: seq<Op>, w: Window)
    ensures ConsumersOf(Run(c, ops).windows, w) == ConsumersOf(c.windows, w) + ActiveForWindow(c, ops, w)
    decreases |ops|
  {
    if ops != [] {
      var next := Perform(c, ops[0]).0;
      if ops[0].WatchFor? {
        WatchAddsConsumers(c.windows, ops[0].w, c.active, w);
      }
      WindowConsumers(next, ops[1..], w);
    }
  }

  lemma CheckAddsConsumers(c: Clock, b: Boundary, now: Reading, other: Boundary)
    ensures var (next, e) := CheckMark(c, b, now);
            ConsumersOf(next.boundaries, other)
            == ConsumersOf(c.boundaries, other) + (if other == b && e.None? && (b.seconds.Some? || b.end.Some?) then c.active else {})
  {
    WatchAddsConsumers(c.boundaries, b, c.active, other);
    SampleSucceedsExactly(c, now);
  }

  lemma {:induction false} BoundaryConsumers(c: Clock, ops: seq<Op>, b: Boundary)
    ensures ConsumersOf(Run(c, ops).boundaries, b) == ConsumersOf(c.boundaries, b) + ActiveForBoundary(c, ops, b)
    decreases |ops|
  {
    if ops != [] {
      var next := Perform(c, ops[0]).0;
      if ops[0].Check? {
        CheckAddsConsumers(c, ops[0].b, ops[0].now, b);
      }
      BoundaryConsumers(next, ops[1..], b);
    }
  }

  // ----- the finding is about the first deadline that fails

  lemma {:induction false} WindowFinding(windows: seq<Watched<Window>>, at: int)
    ensures CheckWindows(windows, at).Wrong? ==>
              exists w :: Watches(windows, w) && !Contains(w, at) && CheckWindows(windows, at) == Wrong(IntentExpired, ConsumersOf(windows, w))
  {
    if windows != [] {
      var first := windows[0];
      if !Contains(first.item, at) {
        assert IndexOf(windows, first.item) == 0;
        assert Watches(windows, first.item);
      } else {
        WindowFinding(windows[1..], at);
        if CheckWindows(windows, at).Wrong? {
          var w :| Watches(windows[1..], w) && !Contains(w, at)
                   && CheckWindows(windows[1..], at) == Wrong(IntentExpired, ConsumersOf(windows[1..], w));
          assert IndexOf(windows, w) == 1 + IndexOf(windows[1..], w);
          assert Watches(windows, w);
        }
      }
    }
  }

  lemma {:induction false} BoundaryFinding(c: Clock, boundaries: seq<Watched<Boundary>>, now: Reading)
    ensures CheckBoundaries(c.domain, c.consumers, boundaries, now).Wrong? ==>
              exists b :: Watches(boundaries, b)
                && CheckBoundaries(c.domain, c.consumers, boundaries, now) == CheckBoundary(c.domain, c.consumers, b, ConsumersOf(boundaries, b), now)
  {
    if boundaries != [] {
      var first := boundaries[0];
      if CheckBoundary(c.domain, c.consumers, first.item, first.consumers, now).Wrong? {
        assert IndexOf(boundaries, first.item) == 0;
        assert Watches(boundaries, first.item);
      } else {
        BoundaryFinding(c, boundaries[1..], now);
        if CheckBoundaries(c.domain, c.consumers, boundaries, now).Wrong? {
          var b :| Watches(boundaries[1..], b)
                   && CheckBoundaries(c.domain, c.consumers, boundaries[1..], now) == CheckBoundary(c.domain, c.consumers, b, ConsumersOf(boundaries[1..], b), now);
          assert IndexOf(boundaries, b) == 1 + IndexOf(boundaries[1..], b);
          assert Watches(boundaries, b);
        }
      }
    }
  }

  /** The boundary belongs to the past of both clocks, but one of them has reached its deadline. */
  ghost predicate Expired(c: Clock, b: Boundary, now: Reading) {
    Genuine(b.mark, c.domain, now) && !Pending(b, now)
  }

  lemma NewIsSubscribed(domain: int, recorded: set<Key>)
    ensures Subscribed(New(domain, recorded))
  {}

  lemma {:induction false} ConsumersAreKnown<T>(entries: seq<Watched<T>>, item: T, known: set<Key>)
    requires KnownTo(entries, known)
    ensures ConsumersOf(entries, item) <= known
  {}

  /**
   A sample that finds a watched deadline passed records a fault for exactly the intents
   that were active when that deadline was registered, at any point of any run.
   */
  lemma ExpiryFaultsItsConsumers(domain: int, recorded: set<Key>, ops: seq<Op>, now: Reading)
    requires Sample(Run(New(domain, recorded), ops), now).1 == Some(VerificationExpired)
    ensures var start := New(domain, recorded); var c := Run(start, ops);
            exists b :: Watches(c.boundaries, b) && Expired(c, b, now) && Sample(c, now).0.recorded == c.recorded + ActiveForBoundary(start, ops, b)
  {
    var start := New(domain, recorded);
    var c := Run(start, ops);
    NewIsSubscribed(domain, recorded);
    RunKeepsSubscribed(start, ops);
    WindowFinding(c.windows, now.at);
    BoundaryFinding(c, c.boundaries, now);
    var b :| Watches(c.boundaries, b) && CheckBoundaries(c.domain, c.consumers, c.boundaries, now) == CheckBoundary(c.domain, c.consumers, b, ConsumersOf(c.boundaries, b), now);
    BoundaryConsumers(start, ops, b);
    ConsumersAreKnown(c.boundaries, b, c.consumers);
    assert c.consumers * ConsumersOf(c.boundaries, b) == ActiveForBoundary(start, ops, b);
    assert Expired(c, b, now);
  }

  lemma WindowExpiryFaultsItsConsumers(domain: int, recorded: set<Key>, ops: seq<Op>, now: Reading)
    requires Sample(Run(New(domain, recorded), ops), now).1 == Some(IntentExpired)
    ensures var start := New(domain, recorded); var c := Run(start, ops);
            exists w :: Watches(c.windows, w) && !Contains(w, now.at) && Sample(c, now).0.recorded == c.recorded + ActiveForWindow(start, ops, w)
  {
    var start := New(domain, recorded);
    var c := Run(start, ops);
    NewIsSubscribed(domain, recorded);
    RunKeepsSubscribed(start, ops);
    WindowFinding(c.windows, now.at);
    BoundaryFinding(c, c.boundaries, now);
    var w :| Watches(c.windows, w) && !Contains(w, now.at) && CheckWindows(c.windows, now.at) == Wrong(IntentExpired, ConsumersOf(c.windows, w));
    WindowConsumers(start, ops, w);
    ConsumersAreKnown(c.windows, w, c.consumers);
    assert c.consumers * ConsumersOf(c.windows, w) == ActiveForWindow(start, ops, w);
  }

  /** A clock that went back, or a mark that is not of the past, faults every intent bound so far. */
  lemma AnomalyFaultsEveryone(c: Clock, now: Reading)
    requires Sample(c, now).1 == Some(ClockInvalid) || Sample(c, now).1 == Some(Anomaly)
    ensures Sample(c, now).0.recorded == c.recorded + c.consumers
  {
    WindowFinding(c.windows, now.at);
    BoundaryFinding(c, c.boundaries, now);
    assert c.consumers * c.consumers == c.consumers;
  }

  /** A mark taken from this clock is never an anomaly to it. */
  lemma OwnMarksAreGenuine(c: Clock, taken: Reading, between: seq<Op>, now: Reading)
    requires Sample(c, taken).1 == None
    requires Sample(Run(Sample(c, taken).0, between), now).1 == None
    ensures Genuine(Mark(taken.at, taken.ns, c.domain), c.domain, now)
  {
    SampleSucceedsExactly(c, taken);
    SamplesGoForward(c, taken, between, now);
  }

  // ----- dependency blocks

  /** Every block opened is closed again, and none that was open before is. */
  predicate Balanced(ops: seq<Op>, depth: nat)
    decreases |ops|
  {
    if ops == [] then depth == 0
    else match ops[0]
      case Open => Balanced(ops[1..], depth + 1)
      case Close => depth > 0 && Balanced(ops[1..], depth - 1)
      case _ => Balanced(ops[1..], depth)
  }

  lemma {:induction false} BalancedKeepsSaved(c: Clock, ops: seq<Op>, depth: nat)
    requires depth <= |c.saved| && Balanced(ops, depth)
    ensures Run(c, ops).saved == c.saved[..|c.saved| - depth]
    decreases |ops|
  {
    if ops == [] {
      assert c.saved[..|c.saved|] == c.saved;
    } else {
      var next := Perform(c, ops[0]).0;
      var k := if ops[0] == Open then depth + 1 else if ops[0] == Close then depth - 1 else depth;
      BalancedKeepsSaved(next, ops[1..], k);
      assert next.saved[..|next.saved| - k] == c.saved[..|c.saved| - depth];
    }
  }

  /** Leaving a dependency block restores exactly the intents that were active before it, whatever happened inside. */
  lemma BlocksRestoreActive(c: Clock, inside: seq<Op>)
    requires Balanced(inside, 0)
    ensures Leave(Run(Enter(c), inside)).active == c.active && Leave(Run(Enter(c), inside)).saved == c.saved
  {
    BalancedKeepsSaved(Enter(c), inside, 0);
    assert Enter(c).saved[..|c.saved|] == c.saved;
  }
}
