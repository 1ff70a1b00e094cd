/** Which slot each request of a run gets: never later than the limit makes necessary. */
module RateSlots {
  import opened Wrappers
  import opened RateLimits

  predicate Positive(requests: seq<Request>) {
    forall i :: 0 <= i < |requests| ==> requests[i].rate > 0.0
  }

  /** The first request of its key in a run takes what was known of the key before. */
  lemma {:induction false} FirstOfItsKey(kind: Kind, platform: real, known: map<string, real>, requests: seq<Request>, i: nat)
    requires platform > 0.0 && Positive(requests) && i < |requests|
    requires forall j :: 0 <= j < i ==> requests[j].key != requests[i].key
    ensures var q := requests[i];
            Slots(kind, platform, known, requests)[i] == Reserve(kind, Known(known, q.key), Interval(platform, q.rate), q.now).0
    decreases |requests|
  {
    if i > 0 {
      var q := requests[0];
      var r := Reserve(kind, Known(known, q.key), Interval(platform, q.rate), q.now);
      FirstOfItsKey(kind, platform, known[q.key := r.1], requests[1..], i - 1);
    }
  }

  /** The interval that separates two consecutive slots of a key: in memory the later request's, in Postgres the earlier one's. */
  function Gap(kind: Kind, platform: real, earlier: Request, later: Request): real
    requires platform > 0.0 && earlier.rate > 0.0 && later.rate > 0.0
  {
    Interval(platform, if kind == InMemory then later.rate else earlier.rate)
  }

  lemma {:induction false} NextOfItsKey(kind: Kind, platform: real, known: map<string, real>, requests: seq<Request>, j: nat, i: nat)
    requires platform > 0.0 && Positive(requests) && j < i < |requests| && requests[j].key == requests[i].key
    requires forall k :: j < k < i ==> requests[k].key != requests[i].key
    ensures var slots := Slots(kind, platform, known, requests);
            slots[i] == MaxReal(requests[i].now, slots[j] + Gap(kind, platform, requests[j], requests[i]))
    decreases |requests|
  {
    var q := requests[0];
    var r := Reserve(kind, Known(known, q.key), Interval(platform, q.rate), q.now);
    if j == 0 {
      FirstOfItsKey(kind, platform, known[q.key := r.1], requests[1..], i - 1);
    } else {
      NextOfItsKey(kind, platform, known[q.key := r.1], requests[1..], j - 1, i - 1);
    }
  }

  /** The last request before this one with its key. */
  predicate Precedes(requests: seq<Request>, j: int, i: nat)
    requires i < |requests|
  {
    && 0 <= j < i && requests[j].key == requests[i].key
    && forall k :: j < k < i ==> requests[k].key != requests[i].key
  }

  predicate IsFirst(requests: seq<Request>, i: nat)
    requires i < |requests|
  {
    forall j :: 0 <= j < i ==> requests[j].key != requests[i].key
  }

  /** The slot is the time asked for or one gap after the other's, whichever is later. */
  predicate SlotFollows(kind: Kind, platform: real, requests: seq<Request>, j: int, i: nat)
    requires platform > 0.0 && Positive(requests) && 0 <= j < i < |requests|
  {
    var slots := Slots(kind, platform, map[], requests);
    slots[i] == MaxReal(requests[i].now, slots[j] + Gap(kind, platform, requests[j], requests[i]))
  }

  /**
   No needless delay: on a fresh limiter the first request of a key gets the time it asks,
   and every other the later of that and its predecessor's slot with one interval added.
   */
  lemma {:induction false} SlotsExactly(kind: Kind, platform: real, requests: seq<Request>, i: nat)
    requires platform > 0.0 && Positive(requests) && i < |requests|
    ensures IsFirst(requests, i) ==> Slots(kind, platform, map[], requests)[i] == requests[i].now
    ensures forall j :: Precedes(requests, j, i) ==> SlotFollows(kind, platform, requests, j, i)
  {
    if IsFirst(requests, i) {
      FirstOfItsKey(kind, platform, map[], requests, i);
    }
    forall j | Precedes(requests, j, i)
      ensures SlotFollows(kind, platform, requests, j, i)
    {
      NextOfItsKey(kind, platform, map[], requests, j, i);
    }
  }
}
