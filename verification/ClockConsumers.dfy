/**
 Which intents the freshness checker protects: a bound intent is active until a block
 opened before it is left, whatever it registers is watched for it, and the sample that
 finds such a deadline passed records its fault.
 */
module ClockConsumers {
  import opened Wrappers
  import opened ClockRules
  import opened ClockFreshness

  // ----- binding

  /** An intent can be bound exactly while there is room for it, and is then bound and active beside those that were. */
  lemma BoundExactly(c: Clock, key: Key, other: Key)
    ensures var (after, e) := BindIntent(c, key);
            && (e == None <==> key in c.consumers || |c.consumers| < 4)
            && (e == None ==> key in after.active && key in after.consumers)
            && (e == None && other != key ==>
                  (other in after.active <==> other in c.active) && (other in after.consumers <==> other in c.consumers))
            && after == c.(active := after.active, consumers := after.consumers)
            && (e.Some? ==> after == c)
  {}

  /** No block is left that was entered before these operations. */
  predicate StaysInside(ops: seq<Op>, depth: nat)
    decreases |ops|
  {
    if ops == [] then true
    else match ops[0]
      case Open => StaysInside(ops[1..], depth + 1)
      case Close => depth > 0 && StaysInside(ops[1..], depth - 1)
      case _ => StaysInside(ops[1..], depth)
  }

  /** The intent is active, and will be again when the last `depth` blocks are left. */
  predicate ActiveThrough(c: Clock, key: Key, depth: nat) {
    && key in c.active && depth <= |c.saved|
    && forall i :: |c.saved| - depth <= i < |c.saved| ==> key in c.saved[i]
  }

  lemma StepStaysActive(c: Clock, op: Op, key: Key, depth: nat)
    requires ActiveThrough(c, key, depth) && (op == Close ==> depth > 0)
    ensures ActiveThrough(Perform(c, op).0, key, if op == Open then depth + 1 else if op == Close then depth - 1 else depth)
  {
    if op.Check? {
      SampleKeepsActive(c, op.now);
    } else if op.Read? {
      SampleKeepsActive(c, op.now);
    }
  }

  lemma SampleKeepsActive(c: Clock, now: Reading)
    ensures Sample(c, now).0.active == c.active && Sample(c, now).0.saved == c.saved
  {}

  lemma {:induction false} RunStaysActive(c: Clock, ops: seq<Op>, key: Key, depth: nat)
    requires ActiveThrough(c, key, depth) && StaysInside(ops, depth)
    ensures key in Run(c, ops).active
    decreases |ops|
  {
    if ops != [] {
      StepStaysActive(c, ops[0], key, depth);
      RunStaysActive(Perform(c, ops[0]).0, ops[1..], key,
                     if ops[0] == Open then depth + 1 else if ops[0] == Close then depth - 1 else depth);
    }
  }

  /** A bound intent is active through any operations that leave no block entered before it was bound. */
  lemma {:induction false} BoundStaysActive(c: Clock, key: Key, ops: seq<Op>)
    requires BindIntent(c, key).1 == None && StaysInside(ops, 0)
    ensures key in Run(BindIntent(c, key).0, ops).active
  {
    BoundExactly(c, key, key);
    RunStaysActive(BindIntent(c, key).0, ops, key, 0);
  }

  // ----- registering

  /** A window is registered exactly if it is watched already or there is room, and then for the active intents as well. */
  lemma WindowWatchedExactly(c: Clock, w: Window)
    ensures var (after, e) := WatchWindow(c, w);
            && (e == None <==> Watches(c.windows, w) || |c.windows| + |c.boundaries| < 64)
            && (e == None ==> Watches(after.windows, w) && ConsumersOf(after.windows, w) == ConsumersOf(c.windows, w) + c.active)
            && (e.Some? ==> after == c)
  {
    WatchKeeps(c.windows, w, c.active, w);
    WatchAddsConsumers(c.windows, w, c.active, w);
  }

  /** A check passes exactly if a sample does, the mark is genuine, its deadline is pending, and it can be watched. */
  lemma CheckedExactly(c: Clock, b: Boundary, now: Reading)
    ensures var (after, e) := CheckMark(c, b, now);
            && (e == None <==>
                  && Sample(c, now).1 == None && Genuine(b.mark, c.domain, now) && Pending(b, now)
                  && ((b.seconds.None? && b.end.None?) || Watches(c.boundaries, b) || |c.windows| + |c.boundaries| < 64))
            && (e == None && (b.seconds.Some? || b.end.Some?) ==>
                  Watches(after.boundaries, b) && ConsumersOf(after.boundaries, b) == ConsumersOf(c.boundaries, b) + c.active)
            && (e == None && b.seconds.None? && b.end.None? ==> after.boundaries == c.boundaries)
  {
    SampleSucceedsExactly(c, now);
    CheckAddsConsumers(c, b, now, b);
    WatchKeeps(c.boundaries, b, c.active, b);
  }

  /** A mark found expired when it is checked faults the active intents, one that is not genuine all of them. */
  lemma FailedCheckFaults(c: Clock, b: Boundary, now: Reading)
    requires Subscribed(c) && Sample(c, now).1 == None
    ensures var (after, e) := CheckMark(c, b, now);
            && (!Genuine(b.mark, c.domain, now) ==> e == Some(Anomaly) && after.poisoned && after.recorded == c.recorded + c.consumers)
            && (Genuine(b.mark, c.domain, now) && !Pending(b, now) ==>
                  e == Some(VerificationExpired) && after.poisoned && after.recorded == c.recorded + c.active)
  {
    SampleSucceedsExactly(c, now);
    assert c.consumers * c.consumers == c.consumers && c.consumers * c.active == c.active;
  }

  // ----- end to end

  /** The time is outside this window and inside every window watched before it. */
  predicate FirstMissed(windows: seq<Watched<Window>>, w: Window, at: int) {
    && Watches(windows, w) && !Contains(w, at)
    && forall i :: 0 <= i < IndexOf(windows, w) ==> Contains(windows[i].item, at)
  }

  lemma {:induction false} FirstMissedIsFound(windows: seq<Watched<Window>>, w: Window, at: int)
    requires FirstMissed(windows, w, at)
    ensures CheckWindows(windows, at) == Wrong(IntentExpired, ConsumersOf(windows, w))
    decreases |windows|
  {
    if windows[0].item != w {
      assert Contains(windows[0].item, at);
      assert IndexOf(windows, w) == 1 + IndexOf(windows[1..], w);
      assert forall i :: 0 <= i < |windows| - 1 ==> windows[1..][i] == windows[i + 1];
      FirstMissedIsFound(windows[1..], w, at);
    }
  }

  lemma {:induction false} WindowConsumersGrow(c: Clock, ops: seq<Op>, w: Window, key: Key)
    requires key in ConsumersOf(c.windows, w)
    ensures key in ConsumersOf(Run(c, ops).windows, w)
  {
    WindowConsumers(c, ops, w);
  }

  lemma {:induction false} BoundaryConsumersGrow(c: Clock, ops: seq<Op>, b: Boundary, key: Key)
    requires key in ConsumersOf(c.boundaries, b)
    ensures key in ConsumersOf(Run(c, ops).boundaries, b)
  {
    BoundaryConsumers(c, ops, b);
  }

  /** What was bound on the way from a new clock to a registration, and everything after it. */
  function AfterWindow(domain: int, recorded: set<Key>, before: seq<Op>, key: Key, between: seq<Op>, w: Window, after: seq<Op>): Clock {
    var bound := BindIntent(Run(New(domain, recorded), before), key).0;
    Run(WatchWindow(Run(bound, between), w).0, after)
  }

  /** A registered window's consumers are bound intents. */
  lemma {:induction false} RegisteredFor(domain: int, recorded: set<Key>, before: seq<Op>, key: Key, between: seq<Op>, w: Window, after: seq<Op>)
    requires var c := Run(New(domain, recorded), before);
             BindIntent(c, key).1 == None && StaysInside(between, 0) && WatchWindow(Run(BindIntent(c, key).0, between), w).1 == None
    ensures var d := AfterWindow(domain, recorded, before, key, between, w, after);
            Watches(d.windows, w) && key in ConsumersOf(d.windows, w) && Subscribed(d)
  {
    var c := Run(New(domain, recorded), before);
    var bound := BindIntent(c, key).0;
    var active := Run(bound, between);
    var watched := WatchWindow(active, w).0;
    BoundStaysActive(c, key, between);
    WindowWatchedExactly(active, w);
    StaysWatched(watched, after, w);
    WindowConsumersGrow(watched, after, w, key);
    NewIsSubscribed(domain, recorded);
    RunKeepsSubscribed(New(domain, recorded), before);
    StepKeepsSubscribed(c, Bind(key));
    RunKeepsSubscribed(bound, between);
    StepKeepsSubscribed(active, WatchFor(w));
    RunKeepsSubscribed(watched, after);
  }

  lemma StepKeepsSubscribed(c: Clock, op: Op)
    requires Subscribed(c)
    ensures Subscribed(Perform(c, op).0)
  {
    RunKeepsSubscribed(c, [op]);
    assert [op][1..] == [];
    assert Run(Perform(c, op).0, []) == Perform(c, op).0;
  }

  /**
   An intent that was bound before a window was registered, in no block left in between, is
   faulted by the sample that finds this window the first to be missed, whatever else was done.
   */
  lemma {:induction false} BoundIntentIsFaultedByItsWindow(domain: int, recorded: set<Key>, before: seq<Op>, key: Key, between: seq<Op>, w: Window, after: seq<Op>, now: Reading)
    requires var c := Run(New(domain, recorded), before);
             BindIntent(c, key).1 == None && StaysInside(between, 0) && WatchWindow(Run(BindIntent(c, key).0, between), w).1 == None
    requires var d := AfterWindow(domain, recorded, before, key, between, w, after);
             !d.poisoned && !GoesBack(d, now) && FirstMissed(d.windows, w, now.at)
    ensures var d := AfterWindow(domain, recorded, before, key, between, w, after);
            Sample(d, now).1 == Some(IntentExpired) && key in Sample(d, now).0.recorded
  {
    var d := AfterWindow(domain, recorded, before, key, between, w, after);
    RegisteredFor(domain, recorded, before, key, between, w, after);
    FirstMissedIsFound(d.windows, w, now.at);
    ConsumersAreKnown(d.windows, w, d.consumers);
  }

  predicate FirstPassed(c: Clock, b: Boundary, now: Reading) {
    && Watches(c.boundaries, b) && Genuine(b.mark, c.domain, now) && !Pending(b, now)
    && (forall i :: 0 <= i < |c.windows| ==> Contains(c.windows[i].item, now.at))
    && forall i :: 0 <= i < IndexOf(c.boundaries, b) ==>
         Genuine(c.boundaries[i].item.mark, c.domain, now) && Pending(c.boundaries[i].item, now)
  }

  lemma {:induction false} FirstPassedIsFound(c: Clock, boundaries: seq<Watched<Boundary>>, b: Boundary, now: Reading)
    requires Watches(boundaries, b) && Genuine(b.mark, c.domain, now) && !Pending(b, now)
    requires forall i :: 0 <= i < IndexOf(boundaries, b) ==>
               Genuine(boundaries[i].item.mark, c.domain, now) && Pending(boundaries[i].item, now)
    ensures CheckBoundaries(c.domain, c.consumers, boundaries, now) == Wrong(VerificationExpired, ConsumersOf(boundaries, b))
    decreases |boundaries|
  {
    if boundaries[0].item != b {
      assert IndexOf(boundaries, b) == 1 + IndexOf(boundaries[1..], b);
      assert forall i :: 0 <= i < |boundaries| - 1 ==> boundaries[1..][i] == boundaries[i + 1];
      FirstPassedIsFound(c, boundaries[1..], b, now);
    }
  }

  function AfterCheck(domain: int, recorded: set<Key>, before: seq<Op>, key: Key, between: seq<Op>, b: Boundary, checked: Reading, after: seq<Op>): Clock {
    var bound := BindIntent(Run(New(domain, recorded), before), key).0;
    Run(CheckMark(Run(bound, between), b, checked).0, after)
  }

  lemma {:induction false} CheckedFor(domain: int, recorded: set<Key>, before: seq<Op>, key: Key, between: seq<Op>, b: Boundary, checked: Reading, after: seq<Op>)
    requires var c := Run(New(domain, recorded), before);
             BindIntent(c, key).1 == None && StaysInside(between, 0) && CheckMark(Run(BindIntent(c, key).0, between), b, checked).1 == None
    requires b.seconds.Some? || b.end.Some?
    ensures var d := AfterCheck(domain, recorded, before, key, between, b, checked, after);
            Watches(d.boundaries, b) && key in ConsumersOf(d.boundaries, b) && Subscribed(d)
  {
    var c := Run(New(domain, recorded), before);
    var bound := BindIntent(c, key).0;
    var active := Run(bound, between);
    var watched := CheckMark(active, b, checked).0;
    BoundStaysActive(c, key, between);
    CheckedExactly(active, b, checked);
    StaysBounded(watched, after, b);
    BoundaryConsumersGrow(watched, after, b, key);
    NewIsSubscribed(domain, recorded);
    RunKeepsSubscribed(New(domain, recorded), before);
    StepKeepsSubscribed(c, Bind(key));
    RunKeepsSubscribed(bound, between);
    StepKeepsSubscribed(active, Check(b, checked));
    RunKeepsSubscribed(watched, after);
  }

  /** So is one that was bound before a mark with a deadline was checked, by the sample that finds this deadline the first to have passed. */
  lemma {:induction false} BoundIntentIsFaultedByItsDeadline(domain: int, recorded: set<Key>, before: seq<Op>, key: Key, between: seq<Op>, b: Boundary, checked: Reading, after: seq<Op>, now: Reading)
    requires var c := Run(New(domain, recorded), before);
             BindIntent(c, key).1 == None && StaysInside(between, 0) && CheckMark(Run(BindIntent(c, key).0, between), b, checked).1 == None
    requires b.seconds.Some? || b.end.Some?
    requires var d := AfterCheck(domain, recorded, before, key, between, b, checked, after);
             !d.poisoned && !GoesBack(d, now) && FirstPassed(d, b, now)
    ensures var d := AfterCheck(domain, recorded, before, key, between, b, checked, after);
            Sample(d, now).1 == Some(VerificationExpired) && key in Sample(d, now).0.recorded
  {
    var d := AfterCheck(domain, recorded, before, key, between, b, checked, after);
    CheckedFor(domain, recorded, before, key, between, b, checked, after);
    WindowsAreChecked(d.windows, now.at);
    FirstPassedIsFound(d, d.boundaries, b, now);
    ConsumersAreKnown(d.boundaries, b, d.consumers);
  }

  /** The shortest such run. */
  lemma BindWatchRead(domain: int)
    ensures Run(New(domain, {}), [Bind(7), WatchFor(Window(0, 10)), Read(Reading(10, 0))]).recorded == {7}
  {
    var c0 := New(domain, {});
    var c1 := Perform(c0, Bind(7)).0;
    var c2 := Perform(c1, WatchFor(Window(0, 10))).0;
    var c3 := Perform(c2, Read(Reading(10, 0))).0;
    assert c1.active == {7} && c1.consumers == {7};
    assert c2.windows == [Watched(Window(0, 10), {7})];
    assert c3.recorded == {7};
    RunOfThree(c0, Bind(7), WatchFor(Window(0, 10)), Read(Reading(10, 0)));
  }

  lemma RunOfThree(c: Clock, a: Op, b: Op, d: Op)
    ensures Run(c, [a, b, d]) == Perform(Perform(Perform(c, a).0, b).0, d).0
  {
    assert [a, b, d][1..] == [b, d] && [b, d][1..] == [d] && [d][1..] == [];
    assert Run(Perform(Perform(c, a).0, b).0, [d]) == Perform(Perform(Perform(c, a).0, b).0, d).0;
  }

  /**
   Only the first missed window's intents are faulted: of two windows missed by one sample
   the later one's intent is not, and no later sample on this clock makes up for it.
   */
  lemma {:induction false} OnlyTheFirstIsFaulted(domain: int, first: Window, second: Window, now: Reading, after: seq<Op>)
    requires first != second && !Contains(first, now.at) && !Contains(second, now.at) && now.ns >= 0
    ensures var c := Clock(domain, None, [Watched(first, {1}), Watched(second, {2})], [], {1, 2}, {}, [], false, {});
            && c == Run(New(domain, {}), [Open, Bind(1), WatchFor(first), Close, Open, Bind(2), WatchFor(second), Close])
            && Sample(c, now).1 == Some(IntentExpired)
            && Run(Sample(c, now).0, after).recorded == {1}
  {
    TwoWindows(domain, first, second);
    var c := Clock(domain, None, [Watched(first, {1}), Watched(second, {2})], [], {1, 2}, {}, [], false, {});
    assert {1, 2} * {1} == {1};
    assert Sample(c, now).0.recorded == {1};
    PoisonedRecordsNothing(Sample(c, now).0, after);
  }

  lemma {:induction false} PoisonedRecordsNothing(c: Clock, ops: seq<Op>)
    requires c.poisoned
    ensures Run(c, ops).recorded == c.recorded
    decreases |ops|
  {
    if ops != [] {
      PoisonedRecordsNothing(Perform(c, ops[0]).0, ops[1..]);
    }
  }

  lemma TwoWindows(domain: int, first: Window, second: Window)
    requires first != second
    ensures Run(New(domain, {}), [Open, Bind(1), WatchFor(first), Close, Open, Bind(2), WatchFor(second), Close])
            == Clock(domain, None, [Watched(first, {1}), Watched(second, {2})], [], {1, 2}, {}, [], false, {})
  {
    var middle := Clock(domain, None, [Watched(first, {1})], [], {1}, {}, [], false, {});
    Block(New(domain, {}), 1, first, middle);
    Block(middle, 2, second, Clock(domain, None, [Watched(first, {1}), Watched(second, {2})], [], {1, 2}, {}, [], false, {}));
    var ops := [Open, Bind(1), WatchFor(first), Close];
    var more := [Open, Bind(2), WatchFor(second), Close];
    RunConcat(New(domain, {}), ops, more);
    assert ops + more == [Open, Bind(1), WatchFor(first), Close, Open, Bind(2), WatchFor(second), Close];
  }

  lemma Block(c: Clock, key: Key, w: Window, end: Clock)
    requires c.active == {} && c.saved == [] && key !in c.consumers && |c.consumers| < 4 && |c.windows| + |c.boundaries| < 64
    requires !Watches(c.windows, w)
    requires end == c.(windows := c.windows + [Watched(w, {key})], consumers := c.consumers + {key})
    ensures Run(c, [Open, Bind(key), WatchFor(w), Close]) == end
  {
    var c1 := Perform(c, Open).0;
    var c2 := Perform(c1, Bind(key)).0;
    var c3 := Perform(c2, WatchFor(w)).0;
    assert c2.active == {key};
    assert Perform(c3, Close).0 == end;
    assert [Open, Bind(key), WatchFor(w), Close][1..] == [Bind(key), WatchFor(w), Close];
    RunOfThree(c1, Bind(key), WatchFor(w), Close);
  }

  lemma {:induction false} RunConcat(c: Clock, first: seq<Op>, rest: seq<Op>)
    ensures Run(c, first + rest) == Run(Run(c, first), rest)
    decreases |first|
  {
    if first == [] {
      assert first + rest == rest;
    } else {
      assert (first + rest)[0] == first[0] && (first + rest)[1..] == first[1..] + rest;
      RunConcat(Perform(c, first[0]).0, first[1..], rest);
    }
  }
}
