/**
 The two reservation rate limiters, over exact times. Both hand out one slot per request
 and key; they differ in which of two requests' intervals separates their slots.
 */
module RateLimits {
  import opened Wrappers

  datatype Error = ConfigurationError | CoordinationError

  datatype Kind = InMemory | Postgres

  function MaxReal(a: real, b: real): real { if a >= b then a else b }

  function MinReal(a: real, b: real): real { if a <= b then a else b }

  /** Seconds between requests at the requested rate, capped by the platform's. */
  function Interval(platform: real, requested: real): (d: real)
    requires platform > 0.0 && requested > 0.0
    ensures d > 0.0 && d >= 1.0 / platform && d >= 1.0 / requested
    ensures d == 1.0 / platform || d == 1.0 / requested
  {
    var rate := MinReal(platform, requested);
    Reciprocals(rate, platform);
    Reciprocals(rate, requested);
    1.0 / rate
  }

  lemma Reciprocals(a: real, b: real)
    requires 0.0 < a <= b
    ensures 1.0 / a >= 1.0 / b > 0.0
  {
    var x, y := 1.0 / a, 1.0 / b;
    assert x * a == 1.0 && y * b == 1.0;
    if x < y {
      assert x * a < y * a <= y * b;
    }
  }

  /**
   One reservation. What is remembered for the key is, in memory, its last slot; in
   Postgres, the time from which the next slot may be taken.
   */
  function Reserve(kind: Kind, known: Option<real>, interval: real, now: real): (r: (real, real)) {
    match kind
    case InMemory =>
      var last := known.GetOr(now - interval);
      var slot := MaxReal(now, last + interval);
      (slot, slot)
    case Postgres =>
      var slot := if known.None? then now else MaxReal(known.value, now);
      (slot, slot + interval)
  }

  /** How long the caller sleeps, by a clock read when the slot is known. */
  function Delay(slot: real, now: real): real {
    MaxReal(0.0, slot - now)
  }

  datatype Request = Request(key: string, rate: real, now: real)

  /** The slots of a run of requests, one per request. */
  function Slots(kind: Kind, platform: real, known: map<string, real>, requests: seq<Request>): (slots: seq<real>)
    requires platform > 0.0 && forall i :: 0 <= i < |requests| ==> requests[i].rate > 0.0
    ensures |slots| == |requests|
    decreases |requests|
  {
    if requests == [] then []
    else
      var q := requests[0];
      var r := Reserve(kind, Known(known, q.key), Interval(platform, q.rate), q.now);
      [r.0] + Slots(kind, platform, known[q.key := r.1], requests[1..])
  }

  function Known(known: map<string, real>, key: string): Option<real> {
    if key in known then Some(known[key]) else None
  }

  /** The earliest slot the key can still get, whatever is requested next. */
  predicate NotBefore(kind: Kind, known: map<string, real>, key: string, gap: real, slot: real) {
    key in known && slot <= (if kind == InMemory then known[key] + gap else known[key])
  }

  lemma {:induction false} LaterSlots(kind: Kind, platform: real, known: map<string, real>, requests: seq<Request>, key: string, slot: real)
    requires platform > 0.0 && forall i :: 0 <= i < |requests| ==> requests[i].rate > 0.0
    requires NotBefore(kind, known, key, 1.0 / platform, slot)
    ensures forall i :: 0 <= i < |requests| && requests[i].key == key ==> slot <= Slots(kind, platform, known, requests)[i]
    decreases |requests|
  {
    if requests != [] {
      var q := requests[0];
      var r := Reserve(kind, Known(known, q.key), Interval(platform, q.rate), q.now);
      LaterSlots(kind, platform, known[q.key := r.1], requests[1..], key, slot);
    }
  }

  /** Whatever rates are requested, slots of one key are at least 1/R apart. */
  lemma {:induction false} SlotsAreApart(kind: Kind, platform: real, known: map<string, real>, requests: seq<Request>, i: nat, j: nat)
    requires platform > 0.0 && forall i :: 0 <= i < |requests| ==> requests[i].rate > 0.0
    requires i < j < |requests| && requests[i].key == requests[j].key
    ensures var slots := Slots(kind, platform, known, requests); slots[i] + 1.0 / platform <= slots[j]
    decreases |requests|
  {
    var q := requests[0];
    var r := Reserve(kind, Known(known, q.key), Interval(platform, q.rate), q.now);
    if i == 0 {
      LaterSlots(kind, platform, known[q.key := r.1], requests[1..], q.key, r.0 + 1.0 / platform);
      assert requests[1..][j - 1] == requests[j];
    } else {
      SlotsAreApart(kind, platform, known[q.key := r.1], requests[1..], i - 1, j - 1);
    }
  }

  // ----- windows

  predicate Apart(slots: seq<real>, gap: real) {
    forall i, j :: 0 <= i < j < |slots| ==> slots[i] + gap <= slots[j]
  }

  lemma {:induction false} FarApart(slots: seq<real>, gap: real, i: nat, j: nat)
    requires Apart(slots, gap) && i <= j < |slots|
    ensures slots[i] + (j - i) as real * gap <= slots[j]
    decreases j - i
  {
    if i < j {
      FarApart(slots, gap, i, j - 1);
      assert slots[j - 1] + gap <= slots[j];
      assert (j - i) as real * gap == (j - 1 - i) as real * gap + gap;
    }
  }

  function InWindow(slots: seq<real>, start: real, length: real): set<nat> {
    set i: nat | i < |slots| && start <= slots[i] < start + length
  }

  lemma {:induction false} RangeSize(i: nat, j: nat, s: set<nat>)
    requires i <= j && forall k :: k in s ==> i <= k < j
    ensures |s| <= j - i
    decreases j
  {
    if i == j {
      assert s == {};
    } else {
      RangeSize(i, j - 1, s - {j - 1});
    }
  }

  lemma {:induction false} Extremes(s: set<nat>) returns (i: nat, j: nat)
    requires s != {}
    ensures i in s && j in s && forall k :: k in s ==> i <= k <= j
    decreases |s|
  {
    var x :| x in s;
    if s == {x} {
      i, j := x, x;
    } else {
      var low, high := Extremes(s - {x});
      i, j := if x < low then x else low, if x > high then x else high;
      forall k | k in s
        ensures i <= k <= j
      {
        assert k == x || k in s - {x};
      }
    }
  }

  /** A window of length W, closed on the left, holds fewer than W*R + 1 slots that are 1/R apart. */
  lemma WindowBound(slots: seq<real>, platform: real, start: real, length: real)
    requires platform > 0.0 && length > 0.0 && Apart(slots, 1.0 / platform)
    ensures |InWindow(slots, start, length)| as real < length * platform + 1.0
  {
    var s := InWindow(slots, start, length);
    if s == {} {
      assert length * platform > 0.0;
    } else {
      var i, j := Extremes(s);
      RangeSize(i, j + 1, s);
      FarApart(slots, 1.0 / platform, i, j);
      Scaled(slots[i], slots[j], (j - i) as real, 1.0 / platform, start, length, platform);
    }
  }

  lemma Scaled(a: real, b: real, n: real, gap: real, start: real, length: real, platform: real)
    requires platform > 0.0 && gap == 1.0 / platform
    requires start <= a && b < start + length && a + n * gap <= b
    ensures n < length * platform
  {
    assert gap * platform == 1.0;
    assert n * gap * platform < length * platform;
    assert n * gap * platform == n * (gap * platform);
  }

  function SlotsOfKey(requests: seq<Request>, slots: seq<real>, key: string): seq<real>
    requires |requests| == |slots|
  {
    if requests == [] then []
    else (if requests[0].key == key then [slots[0]] else []) + SlotsOfKey(requests[1..], slots[1..], key)
  }

  lemma {:induction false} SlotsOfKeyAreApart(requests: seq<Request>, slots: seq<real>, key: string, gap: real)
    requires |requests| == |slots|
    requires forall i, j :: 0 <= i < j < |requests| && requests[i].key == requests[j].key ==> slots[i] + gap <= slots[j]
    ensures Apart(SlotsOfKey(requests, slots, key), gap)
    ensures forall x :: x in SlotsOfKey(requests, slots, key) ==> exists i :: 0 <= i < |slots| && slots[i] == x && requests[i].key == key
    decreases |requests|
  {
    if requests != [] {
      var rest := SlotsOfKey(requests[1..], slots[1..], key);
      SlotsOfKeyAreApart(requests[1..], slots[1..], key, gap);
      forall x | x in rest
        ensures exists i :: 0 < i < |slots| && slots[i] == x && requests[i].key == key
      {
        var i :| 0 <= i < |slots| - 1 && slots[1..][i] == x && requests[1..][i].key == key;
        assert slots[i + 1] == x;
      }
      if requests[0].key == key {
        forall j | 0 <= j < |rest|
          ensures slots[0] + gap <= rest[j]
        {
          assert rest[j] in rest;
        }
      }
    }
  }

  /** The bound, for any run of requests at any rates, on either limiter. */
  lemma RateBound(kind: Kind, platform: real, requests: seq<Request>, key: string, start: real, length: real)
    requires platform > 0.0 && length > 0.0 && forall i :: 0 <= i < |requests| ==> requests[i].rate > 0.0
    ensures var slots := SlotsOfKey(requests, Slots(kind, platform, map[], requests), key);
            |InWindow(slots, start, length)| as real < length * platform + 1.0
  {
    var slots := Slots(kind, platform, map[], requests);
    forall i, j | 0 <= i < j < |requests| && requests[i].key == requests[j].key
      ensures slots[i] + 1.0 / platform <= slots[j]
    {
      SlotsAreApart(kind, platform, map[], requests, i, j);
    }
    SlotsOfKeyAreApart(requests, slots, key, 1.0 / platform);
    WindowBound(SlotsOfKey(requests, slots, key), platform, start, length);
  }

  // ----- the two limiters compared

  /** Both remember the same thing, in their own terms. */
  predicate Match(memory: map<string, real>, postgres: map<string, real>, interval: real) {
    memory.Keys == postgres.Keys && forall k :: k in memory ==> postgres[k] == memory[k] + interval
  }

  lemma {:induction false} SameRateSameSlots(platform: real, rate: real, memory: map<string, real>, postgres: map<string, real>, requests: seq<Request>)
    requires platform > 0.0 && rate > 0.0 && forall i :: 0 <= i < |requests| ==> requests[i].rate == rate
    requires Match(memory, postgres, Interval(platform, rate))
    ensures Slots(InMemory, platform, memory, requests) == Slots(Postgres, platform, postgres, requests)
    decreases |requests|
  {
    if requests != [] {
      var q, d := requests[0], Interval(platform, rate);
      var m, p := Reserve(InMemory, Known(memory, q.key), d, q.now), Reserve(Postgres, Known(postgres, q.key), d, q.now);
      assert m.0 == p.0;
      SameRateSameSlots(platform, rate, memory[q.key := m.1], postgres[q.key := p.1], requests[1..]);
    }
  }

  /** Started empty and asked at one rate with the same clock readings, the two reserve the same slots. */
  lemma LimitersAgree(platform: real, rate: real, requests: seq<Request>)
    requires platform > 0.0 && rate > 0.0 && forall i :: 0 <= i < |requests| ==> requests[i].rate == rate
    ensures Slots(InMemory, platform, map[], requests) == Slots(Postgres, platform, map[], requests)
  {
    SameRateSameSlots(platform, rate, map[], map[], requests);
  }

  /**
   On the second request for a key they agree exactly when the clock already passed both
   intervals or the two effective rates are the same: in memory the later request's
   interval counts, in Postgres the earlier one's.
   */
  lemma AgreeOnTheSecond(platform: real, first: Request, second: Request)
    requires platform > 0.0 && first.rate > 0.0 && second.rate > 0.0 && first.key == second.key
    ensures var d, e := Interval(platform, first.rate), Interval(platform, second.rate);
            Slots(InMemory, platform, map[], [first, second]) == Slots(Postgres, platform, map[], [first, second])
            <==> d == e || (second.now >= first.now + d && second.now >= first.now + e)
  {
    var d, e := Interval(platform, first.rate), Interval(platform, second.rate);
    SlotsOfTwo(InMemory, platform, first, second);
    SlotsOfTwo(Postgres, platform, first, second);
    var m, p := Slots(InMemory, platform, map[], [first, second]), Slots(Postgres, platform, map[], [first, second]);
    assert m == p <==> m[1] == p[1];
  }

  lemma SlotsOfTwo(kind: Kind, platform: real, first: Request, second: Request)
    requires platform > 0.0 && first.rate > 0.0 && second.rate > 0.0 && first.key == second.key
    ensures Slots(kind, platform, map[], [first, second])
            == [first.now, MaxReal(second.now, first.now + Interval(platform, if kind == InMemory then second.rate else first.rate))]
  {
    var known := map[first.key := Reserve(kind, None, Interval(platform, first.rate), first.now).1];
    assert map[][first.key := known[first.key]] == known;
    assert [first, second][1..] == [second] && [second][1..] == [];
  }

  /** The last reservation for a key: its slot, and the interval it was made with. */
  datatype Reservation = Reservation(slot: real, interval: real)

  /**
   At every request the effective interval is that of the key's previous request, or the
   clock has passed the previous slot by both intervals.
   */
  predicate Undisputed(platform: real, last: map<string, Reservation>, requests: seq<Request>)
    requires platform > 0.0 && forall i :: 0 <= i < |requests| ==> requests[i].rate > 0.0
    decreases |requests|
  {
    requests == []
    || (var q, d := requests[0], Interval(platform, requests[0].rate);
        if q.key in last then
          var r := last[q.key];
          && (d == r.interval || (q.now >= r.slot + d && q.now >= r.slot + r.interval))
          && Undisputed(platform, last[q.key := Reservation(MaxReal(q.now, r.slot + d), d)], requests[1..])
        else Undisputed(platform, last[q.key := Reservation(q.now, d)], requests[1..]))
  }

  /** What the two remember after the same reservations. */
  predicate Remember(last: map<string, Reservation>, memory: map<string, real>, postgres: map<string, real>) {
    && memory.Keys == last.Keys && postgres.Keys == last.Keys
    && forall k :: k in last ==> memory[k] == last[k].slot && postgres[k] == last[k].slot + last[k].interval
  }

  lemma {:induction false} SlotsAgreeExactly(platform: real, last: map<string, Reservation>, memory: map<string, real>, postgres: map<string, real>, requests: seq<Request>)
    requires platform > 0.0 && forall i :: 0 <= i < |requests| ==> requests[i].rate > 0.0
    requires Remember(last, memory, postgres)
    ensures Slots(InMemory, platform, memory, requests) == Slots(Postgres, platform, postgres, requests) <==> Undisputed(platform, last, requests)
    decreases |requests|
  {
    if requests != [] {
      var q, d := requests[0], Interval(platform, requests[0].rate);
      var m, p := Reserve(InMemory, Known(memory, q.key), d, q.now), Reserve(Postgres, Known(postgres, q.key), d, q.now);
      var ms, ps := Slots(InMemory, platform, memory[q.key := m.1], requests[1..]), Slots(Postgres, platform, postgres[q.key := p.1], requests[1..]);
      FirstDecides(m.0, ms, p.0, ps);
      if m.0 == p.0 {
        SlotsAgreeExactly(platform, last[q.key := Reservation(m.0, d)], memory[q.key := m.1], postgres[q.key := p.1], requests[1..]);
      }
    }
  }

  lemma FirstDecides(a: real, as': seq<real>, b: real, bs: seq<real>)
    ensures [a] + as' == [b] + bs <==> a == b && as' == bs
  {
    if [a] + as' == [b] + bs {
      assert a == ([a] + as')[0] == ([b] + bs)[0] == b;
      assert as' == ([a] + as')[1..] == ([b] + bs)[1..] == bs;
    }
  }

  /** Over any run from the start, at any rates, the two reserve the same slots exactly when no request is disputed. */
  lemma LimitersAgreeExactly(platform: real, requests: seq<Request>)
    requires platform > 0.0 && forall i :: 0 <= i < |requests| ==> requests[i].rate > 0.0
    ensures Slots(InMemory, platform, map[], requests) == Slots(Postgres, platform, map[], requests) <==> Undisputed(platform, map[], requests)
  {
    SlotsAgreeExactly(platform, map[], map[], map[], requests);
  }
}
