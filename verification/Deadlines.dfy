/**
 When the set of eligible assertions next changes: the two computations of the
 deadlines, one for retrieval and one for intents, and what the deadlines mean.
 */
module Deadlines {
  import opened Wrappers

  const MAX_SCANNED := 256

  /** The columns of an assertion of one resource and identity. */
  datatype Assertion = Assertion(verified: bool, assertedAt: int, validFrom: Option<int>, validUntil: Option<int>)

  datatype Error = ScanLimit

  /** What the table's check constraint admits: an end needs a start before it. */
  predicate Admissible(a: Assertion) {
    a.validUntil.Some? ==> a.validFrom.Some? && a.validFrom.value < a.validUntil.value
  }

  function Start(a: Assertion): int {
    Max(a.assertedAt, a.validFrom.GetOr(a.assertedAt))
  }

  predicate EndsAfter(a: Assertion, t: int) {
    a.validUntil.Some? ==> t < a.validUntil.value
  }

  /** Counted as a fact at time t. */
  predicate Eligible(a: Assertion, t: int) {
    a.verified && Start(a) <= t && EndsAfter(a, t)
  }

  ghost function EligibleAt(rows: seq<Assertion>, t: int): set<nat> {
    set i: nat | i < |rows| && Eligible(rows[i], t)
  }

  function Where(rows: seq<Assertion>, keep: Assertion -> bool): (kept: seq<Assertion>)
    ensures forall a :: a in kept <==> a in rows && keep(a)
  {
    if rows == [] then []
    else
      assert rows == [rows[0]] + rows[1..];
      (if keep(rows[0]) then [rows[0]] else []) + Where(rows[1..], keep)
  }

  /** The retrieval query drops windows that are over or empty. */
  function NotOverOrEmpty(at: int): Assertion -> bool {
    (a: Assertion) => a.verified && EndsAfter(a, Max(Start(a), at))
  }

  /** The intent query drops only those that are over. */
  function NotOver(at: int): Assertion -> bool {
    (a: Assertion) => a.verified && EndsAfter(a, at)
  }

  function Retrieved(rows: seq<Assertion>, at: int): seq<Assertion> {
    Where(rows, NotOverOrEmpty(at))
  }

  function Scanned(rows: seq<Assertion>, at: int): seq<Assertion> {
    Where(rows, NotOver(at))
  }

  /** The next time the assertion's eligibility changes, if it does. */
  function Change(a: Assertion, at: int): seq<int> {
    if !EndsAfter(a, Start(a)) then []
    else if Start(a) > at then [Start(a)]
    else if a.validUntil.Some? then [a.validUntil.value]
    else []
  }

  function Changes(rows: seq<Assertion>, at: int): seq<int> {
    if rows == [] then [] else Changes(rows[..|rows| - 1], at) + Change(rows[|rows| - 1], at)
  }

  lemma ChangesSnoc(rows: seq<Assertion>, a: Assertion, at: int)
    ensures Changes(rows + [a], at) == Changes(rows, at) + Change(a, at)
  {
    assert (rows + [a])[..|rows|] == rows;
  }

  lemma ChangesOfNext(rows: seq<Assertion>, i: nat, at: int)
    requires i < |rows|
    ensures Changes(rows[..i + 1], at) == Changes(rows[..i], at) + Change(rows[i], at)
  {
    assert rows[..i + 1] == rows[..i] + [rows[i]];
    ChangesSnoc(rows[..i], rows[i], at);
  }

  /** What retrieval answers about the assertions. */
  function RetrievalAnswer(rows: seq<Assertion>, at: int): Result<seq<int>, Error> {
    if |Retrieved(rows, at)| > MAX_SCANNED then Err(ScanLimit) else Ok(Changes(Retrieved(rows, at), at))
  }

  /** What the intent answers about them. */
  function ActorAnswer(rows: seq<Assertion>, at: int): Result<seq<int>, Error> {
    if |Scanned(rows, at)| > MAX_SCANNED then Err(ScanLimit) else Ok(Changes(Scanned(rows, at), at))
  }

  // ----- authorization revisions

  datatype Revision = Revision(validFrom: Option<int>, validUntil: Option<int>)

  /** The revision is in force at time t. */
  predicate InForce(r: Revision, t: int) {
    (r.validFrom.Some? ==> r.validFrom.value <= t) && (r.validUntil.Some? ==> t < r.validUntil.value)
  }

  function After(bound: Option<int>, at: int): seq<int> {
    if bound.Some? && bound.value > at then [bound.value] else []
  }

  /** The bounds still to come, revision by revision. */
  function PermissionDeadlines(revisions: seq<Revision>, at: int): seq<int> {
    if revisions == [] then []
    else
      var last := revisions[|revisions| - 1];
      PermissionDeadlines(revisions[..|revisions| - 1], at) + (After(last.validFrom, at) + After(last.validUntil, at))
  }

  lemma {:induction false} PermissionDeadlinesInclude(revisions: seq<Revision>, at: int, i: nat, d: int)
    requires i < |revisions|
    requires d > at && (revisions[i].validFrom == Some(d) || revisions[i].validUntil == Some(d))
    ensures d in PermissionDeadlines(revisions, at)
  {
    var n := |revisions| - 1;
    if i < n {
      PermissionDeadlinesInclude(revisions[..n], at, i, d);
    } else {
      assert d in After(revisions[n].validFrom, at) + After(revisions[n].validUntil, at);
    }
  }

  /** Exactly the bounds of the revisions that are still to come. */
  lemma {:induction false} PermissionDeadlinesExactly(revisions: seq<Revision>, at: int, d: int)
    ensures d in PermissionDeadlines(revisions, at) <==>
              d > at && exists i :: 0 <= i < |revisions| && (revisions[i].validFrom == Some(d) || revisions[i].validUntil == Some(d))
  {
    if revisions != [] {
      var n := |revisions| - 1;
      PermissionDeadlinesExactly(revisions[..n], at, d);
      if d > at && exists i :: 0 <= i < |revisions| && (revisions[i].validFrom == Some(d) || revisions[i].validUntil == Some(d)) {
        var i :| 0 <= i < |revisions| && (revisions[i].validFrom == Some(d) || revisions[i].validUntil == Some(d));
        PermissionDeadlinesInclude(revisions, at, i, d);
      }
    }
  }

  /** Before the earliest of them the same revisions are in force as at the evaluation. */
  lemma PermissionsAreStable(revisions: seq<Revision>, at: int, t: int, i: nat)
    requires at <= t && i < |revisions| && forall d :: d in PermissionDeadlines(revisions, at) ==> t < d
    ensures InForce(revisions[i], t) == InForce(revisions[i], at)
  {
    var r := revisions[i];
    if r.validFrom.Some? && r.validFrom.value > at {
      PermissionDeadlinesInclude(revisions, at, i, r.validFrom.value);
    }
    if r.validUntil.Some? && r.validUntil.value > at {
      PermissionDeadlinesInclude(revisions, at, i, r.validUntil.value);
    }
  }

  /**
   Deadlines for retrieval: the revisions' as of the readiness evaluation, then, when the
   proposal names a resource and an identity, those of at most MAX_SCANNED windows.
   */
  method ContextDeadlines(revisions: seq<Revision>, permissionAt: int, paired: bool, rows: seq<Assertion>, at: int)
    returns (r: Result<seq<int>, Error>)
    ensures var permissions := PermissionDeadlines(revisions, permissionAt);
            r == if !paired then Ok(permissions)
                 else if RetrievalAnswer(rows, at).Err? then Err(ScanLimit)
                 else Ok(permissions + RetrievalAnswer(rows, at).value)
  {
    var deadlines, k := [], 0;
    while k < |revisions|
      invariant 0 <= k <= |revisions| && deadlines == PermissionDeadlines(revisions[..k], permissionAt)
    {
      assert revisions[..k + 1][..k] == revisions[..k];
      deadlines := deadlines + (After(revisions[k].validFrom, permissionAt) + After(revisions[k].validUntil, permissionAt));
      k := k + 1;
    }
    assert revisions[..|revisions|] == revisions;
    if !paired {
      return Ok(deadlines);
    }
    var windows := Retrieved(rows, at);
    if |windows| > MAX_SCANNED {
      return Err(ScanLimit);
    }
    deadlines := AppendChanges(deadlines, windows, rows, at);
    r := Ok(deadlines);
  }

  /** What the loop adds for a retrieved window, which is never empty. */
  lemma ChangeOfRetrieved(rows: seq<Assertion>, at: int, w: Assertion)
    requires w in Retrieved(rows, at)
    ensures Change(w, at) == if Start(w) > at then [Start(w)] else if w.validUntil.Some? then [w.validUntil.value] else []
  {}

  method AppendChanges(before: seq<int>, windows: seq<Assertion>, ghost rows: seq<Assertion>, at: int) returns (deadlines: seq<int>)
    requires windows == Retrieved(rows, at)
    ensures deadlines == before + Changes(windows, at)
  {
    deadlines := before;
    var i := 0;
    while i < |windows|
      invariant 0 <= i <= |windows| && deadlines == before + Changes(windows[..i], at)
    {
      var w := windows[i];
      ChangeOfRetrieved(rows, at, w);
      ChangesOfNext(windows, i, at);
      var eligibleFrom := Max(w.assertedAt, w.validFrom.GetOr(w.assertedAt));
      if eligibleFrom > at {
        deadlines := deadlines + [eligibleFrom];
      } else if w.validUntil.Some? {
        deadlines := deadlines + [w.validUntil.value];
      }
      i := i + 1;
    }
    assert windows[..|windows|] == windows;
  }

  /** Deadlines for intents: empty windows are skipped one by one instead. */
  method ActorDeadlines(rows: seq<Assertion>, at: int) returns (r: Result<seq<int>, Error>)
    ensures r == ActorAnswer(rows, at)
  {
    var facts := Scanned(rows, at);
    if |facts| > MAX_SCANNED {
      return Err(ScanLimit);
    }
    var deadlines, i := [], 0;
    while i < |facts|
      invariant 0 <= i <= |facts| && deadlines == Changes(facts[..i], at)
    {
      var fact := facts[i];
      ChangesOfNext(facts, i, at);
      var start, end := Max(fact.assertedAt, fact.validFrom.GetOr(fact.assertedAt)), fact.validUntil;
      if !(end.Some? && end.value <= start) {
        if start > at {
          deadlines := deadlines + [start];
        } else if end.Some? {
          deadlines := deadlines + [end.value];
        }
      }
      i := i + 1;
    }
    assert facts[..|facts|] == facts;
    r := Ok(deadlines);
  }

  // ----- agreement

  lemma {:induction false} WhereSnoc(rows: seq<Assertion>, a: Assertion, keep: Assertion -> bool)
    ensures Where(rows + [a], keep) == Where(rows, keep) + (if keep(a) then [a] else [])
  {
    if rows == [] {
      assert rows + [a] == [a];
    } else {
      assert (rows + [a])[1..] == rows[1..] + [a];
      WhereSnoc(rows[1..], a, keep);
    }
  }

  lemma ChangesOfKept(kept: seq<Assertion>, a: Assertion, keep: bool, at: int)
    ensures Changes(kept + (if keep then [a] else []), at) == Changes(kept, at) + (if keep then Change(a, at) else [])
  {
    if keep {
      ChangesSnoc(kept, a, at);
    } else {
      assert kept + [] == kept;
    }
  }

  lemma SameContribution(a: Assertion, at: int)
    ensures NotOverOrEmpty(at)(a) ==> NotOver(at)(a)
    ensures (if NotOverOrEmpty(at)(a) then Change(a, at) else []) == (if NotOver(at)(a) then Change(a, at) else [])
  {}

  /** Both queries lead to the same deadlines, and the retrieval's rows are among the intent's. */
  lemma {:induction false} SameChanges(rows: seq<Assertion>, at: int)
    ensures Changes(Retrieved(rows, at), at) == Changes(Scanned(rows, at), at)
    ensures |Retrieved(rows, at)| <= |Scanned(rows, at)|
  {
    if rows != [] {
      var before, a := rows[..|rows| - 1], rows[|rows| - 1];
      SameChanges(before, at);
      assert rows == before + [a];
      WhereSnoc(before, a, NotOverOrEmpty(at));
      WhereSnoc(before, a, NotOver(at));
      ChangesOfKept(Retrieved(before, at), a, NotOverOrEmpty(at)(a), at);
      ChangesOfKept(Scanned(before, at), a, NotOver(at)(a), at);
      SameContribution(a, at);
    }
  }

  /**
   The two answers are the same exactly unless the scan limit parts them: the intent
   counts windows that retrieval does not look at.
   */
  lemma AnswersAgreeExactly(rows: seq<Assertion>, at: int)
    ensures RetrievalAnswer(rows, at) == ActorAnswer(rows, at) <==> |Scanned(rows, at)| <= MAX_SCANNED || |Retrieved(rows, at)| > MAX_SCANNED
    ensures RetrievalAnswer(rows, at).Ok? && ActorAnswer(rows, at).Ok? ==> RetrievalAnswer(rows, at) == ActorAnswer(rows, at)
    ensures ActorAnswer(rows, at).Ok? ==> RetrievalAnswer(rows, at).Ok?
  {
    SameChanges(rows, at);
  }

  /** Live at the evaluation, but over before it begins: it counts for one and not for the other. */
  predicate LiveAndEmpty(a: Assertion, at: int) {
    a.verified && EndsAfter(a, at) && !EndsAfter(a, Start(a))
  }

  /** Such a row of the table was asserted after the evaluation, and not before its own end. */
  lemma LiveAndEmptyExactly(a: Assertion, at: int)
    requires Admissible(a)
    ensures LiveAndEmpty(a, at) <==> a.verified && a.validUntil.Some? && at < a.validUntil.value <= a.assertedAt
  {}

  lemma SplitRows(rows: seq<Assertion>, at: int)
    requires rows != []
    ensures var before, a := rows[..|rows| - 1], rows[|rows| - 1];
            && Retrieved(rows, at) == Retrieved(before, at) + (if NotOverOrEmpty(at)(a) then [a] else [])
            && Scanned(rows, at) == Scanned(before, at) + (if NotOver(at)(a) then [a] else [])
  {
    var before, a := rows[..|rows| - 1], rows[|rows| - 1];
    assert rows == before + [a];
    WhereSnoc(before, a, NotOverOrEmpty(at));
    WhereSnoc(before, a, NotOver(at));
  }

  lemma {:induction false} SameRows(rows: seq<Assertion>, at: int)
    requires forall i :: 0 <= i < |rows| ==> !LiveAndEmpty(rows[i], at)
    ensures Retrieved(rows, at) == Scanned(rows, at)
  {
    if rows != [] {
      SplitRows(rows, at);
      SameRows(rows[..|rows| - 1], at);
      assert !LiveAndEmpty(rows[|rows| - 1], at);
    }
  }

  lemma {:induction false} FewerRows(rows: seq<Assertion>, at: int, i: nat)
    requires i < |rows| && LiveAndEmpty(rows[i], at)
    ensures |Retrieved(rows, at)| < |Scanned(rows, at)|
  {
    SplitRows(rows, at);
    SameContribution(rows[|rows| - 1], at);
    if i < |rows| - 1 {
      FewerRows(rows[..|rows| - 1], at, i);
    } else {
      SameChanges(rows[..|rows| - 1], at);
    }
  }

  /** Both look at the same rows exactly when there is no such row. */
  lemma SameRowsExactly(rows: seq<Assertion>, at: int)
    ensures Retrieved(rows, at) == Scanned(rows, at) <==> forall i :: 0 <= i < |rows| ==> !LiveAndEmpty(rows[i], at)
  {
    if i :| 0 <= i < |rows| && LiveAndEmpty(rows[i], at) {
      FewerRows(rows, at, i);
    } else {
      SameRows(rows, at);
    }
  }

  /** So rows of the table all asserted by the evaluation always get the same answer, scan limit included. */
  lemma AssertedRowsAgree(rows: seq<Assertion>, at: int)
    requires forall i :: 0 <= i < |rows| ==> Admissible(rows[i]) && rows[i].assertedAt <= at
    ensures RetrievalAnswer(rows, at) == ActorAnswer(rows, at)
  {
    forall i | 0 <= i < |rows|
      ensures !LiveAndEmpty(rows[i], at)
    {
      LiveAndEmptyExactly(rows[i], at);
    }
    SameRowsExactly(rows, at);
  }

  function Repeat(a: Assertion, n: nat): (rows: seq<Assertion>)
    ensures |rows| == n
  {
    seq(n, i => a)
  }

  lemma {:induction false} WhereRepeated(a: Assertion, n: nat, keep: Assertion -> bool)
    ensures |Where(Repeat(a, n), keep)| == if keep(a) then n else 0
  {
    if n > 0 {
      assert Repeat(a, n)[1..] == Repeat(a, n - 1);
      WhereRepeated(a, n - 1, keep);
    }
  }

  /** With enough rows asserted for after the evaluation and over before that, one answers and the other does not. */
  lemma ScanLimitsDiffer(at: int)
    ensures var a := Assertion(true, at + 2, Some(at), Some(at + 1)); var rows := Repeat(a, MAX_SCANNED + 1);
            && Admissible(a)
            && RetrievalAnswer(rows, at) == Ok([]) && ActorAnswer(rows, at) == Err(ScanLimit)
  {
    var a := Assertion(true, at + 2, Some(at), Some(at + 1));
    WhereRepeated(a, MAX_SCANNED + 1, NotOverOrEmpty(at));
    WhereRepeated(a, MAX_SCANNED + 1, NotOver(at));
    assert Retrieved(Repeat(a, MAX_SCANNED + 1), at) == [];
  }

  // ----- meaning

  lemma {:induction false} ChangesAre(rows: seq<Assertion>, at: int)
    ensures forall d :: d in Changes(rows, at) <==> exists i :: 0 <= i < |rows| && d in Change(rows[i], at)
  {
    if rows != [] {
      var n := |rows| - 1;
      ChangesAre(rows[..n], at);
      forall d
        ensures d in Changes(rows, at) <==> exists i :: 0 <= i < |rows| && d in Change(rows[i], at)
      {
        if d in Changes(rows[..n], at) {
          var i :| 0 <= i < n && d in Change(rows[..n][i], at);
          assert d in Change(rows[i], at);
        }
        if i :| 0 <= i < |rows| && d in Change(rows[i], at) {
          if i < n {
            assert d in Change(rows[..n][i], at);
          }
        }
      }
    }
  }

  /** What the deadlines come from: the verified assertions of the table whose window is not empty or over. */
  lemma DeadlinesAre(rows: seq<Assertion>, at: int, d: int)
    ensures d in Changes(Retrieved(rows, at), at) <==>
              exists i :: 0 <= i < |rows| && rows[i].verified && EndsAfter(rows[i], at) && d in Change(rows[i], at)
  {
    var kept := Retrieved(rows, at);
    ChangesAre(kept, at);
    if d in Changes(kept, at) {
      var i :| 0 <= i < |kept| && d in Change(kept[i], at);
      assert kept[i] in kept;
      var j :| 0 <= j < |rows| && rows[j] == kept[i];
      assert rows[j].verified && EndsAfter(rows[j], at) && d in Change(rows[j], at);
    }
    if i :| 0 <= i < |rows| && rows[i].verified && EndsAfter(rows[i], at) && d in Change(rows[i], at) {
      assert rows[i] in rows && rows[i] in kept;
      var j :| 0 <= j < |kept| && kept[j] == rows[i];
      assert d in Change(kept[j], at);
    }
  }

  /** One assertion keeps its eligibility up to its change and loses or gains it there. */
  lemma ChangeIsFirst(a: Assertion, at: int, t: int)
    requires at <= t && a.verified
    ensures forall d :: d in Change(a, at) && EndsAfter(a, at) ==> d > at && (Eligible(a, d) != Eligible(a, at))
    ensures (forall d :: d in Change(a, at) && EndsAfter(a, at) ==> t < d) ==> Eligible(a, t) == Eligible(a, at)
  {
    var c := Change(a, at);
    if c != [] {
      assert c[0] in c;
    }
  }

  /** Up to the earliest deadline the eligible assertions are those of the evaluation time; without deadlines, forever. */
  lemma EligibilityIsStable(rows: seq<Assertion>, at: int, t: int)
    requires at <= t && forall d :: d in Changes(Retrieved(rows, at), at) ==> t < d
    ensures EligibleAt(rows, t) == EligibleAt(rows, at)
  {
    forall i: nat | i < |rows|
      ensures Eligible(rows[i], t) == Eligible(rows[i], at)
    {
      if rows[i].verified {
        forall d | d in Change(rows[i], at) && EndsAfter(rows[i], at)
          ensures t < d
        {
          DeadlinesAre(rows, at, d);
        }
        ChangeIsFirst(rows[i], at, t);
      }
    }
  }

  /** And every deadline is a time after the evaluation at which they are different ones. */
  lemma DeadlinesAreTight(rows: seq<Assertion>, at: int, d: int)
    requires d in Changes(Retrieved(rows, at), at)
    ensures d > at && EligibleAt(rows, d) != EligibleAt(rows, at)
  {
    DeadlinesAre(rows, at, d);
    var i :| 0 <= i < |rows| && rows[i].verified && EndsAfter(rows[i], at) && d in Change(rows[i], at);
    ChangeIsFirst(rows[i], at, d);
    assert i in EligibleAt(rows, d) <==> Eligible(rows[i], d);
    assert i in EligibleAt(rows, at) <==> Eligible(rows[i], at);
  }
}
