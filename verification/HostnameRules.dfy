/**
 Which hostname rule decides about a candidate. Hostnames and patterns are normalised
 strings; an include is always a wildcard, an exclude may be exact.

 First the decision and what it depends on: the selection is a maximum under a key, so
 most of it is about when two matching patterns have the same key. Then the normaliser,
 over a library of the encodings it calls, and when normalising is stable.
 */
module HostnameRules {
  import opened Wrappers

  datatype Kind = Include | Exclude

  datatype Rule = Rule(id: int, revision: int, kind: Kind, pattern: string)

  datatype Code = Invalid | Excluded | NotIncluded | Included

  datatype Decision = Decision(eligible: bool, code: Code, includeId: Option<int>, excludeId: Option<int>)

  predicate EndsWith(s: string, tail: string) {
    |tail| <= |s| && s[|s| - |tail|..] == tail
  }

  predicate IsWildcard(pattern: string) {
    |pattern| >= 2 && pattern[0] == '*' && pattern[1] == '.'
  }

  function Suffix(pattern: string): string
    requires IsWildcard(pattern)
  {
    pattern[2..]
  }

  predicate Matches(pattern: string, hostname: string) {
    if IsWildcard(pattern) then hostname != Suffix(pattern) && EndsWith(hostname, "." + Suffix(pattern))
    else hostname == pattern
  }

  function CountOf(s: string, c: char): nat {
    if s == "" then 0 else (if s[0] == c then 1 else 0) + CountOf(s[1..], c)
  }

  /** Whether b's selection key is greater: more dots, then longer, then the smaller id. */
  predicate Below(a: Rule, b: Rule) {
    var da, db := CountOf(a.pattern, '.'), CountOf(b.pattern, '.');
    da < db || (da == db && (|a.pattern| < |b.pattern| || (|a.pattern| == |b.pattern| && b.id < a.id)))
  }

  /** The first of the greatest. */
  function Select(rules: seq<Rule>): (r: Option<Rule>)
    ensures r.None? <==> rules == []
    ensures r.Some? ==> r.value in rules
  {
    if rules == [] then None
    else
      var last, best := rules[|rules| - 1], Select(rules[..|rules| - 1]);
      if best.None? || Below(best.value, last) then Some(last) else best
  }

  function Where(rules: seq<Rule>, revision: int, kind: Kind, hostname: string): (kept: seq<Rule>)
    ensures forall r :: r in kept <==> r in rules && r.revision == revision && r.kind == kind && Matches(r.pattern, hostname)
  {
    if rules == [] then []
    else
      assert rules == [rules[0]] + rules[1..];
      var r := rules[0];
      (if r.revision == revision && r.kind == kind && Matches(r.pattern, hostname) then [r] else []) + Where(rules[1..], revision, kind, hostname)
  }

  function IdOf(r: Option<Rule>): Option<int> {
    if r.Some? then Some(r.value.id) else None
  }

  /** No hostname when the candidate could not be normalised. */
  function MatchCandidate(revision: int, hostname: Option<string>, rules: seq<Rule>): Decision {
    if hostname.None? then Decision(false, Invalid, None, None)
    else
      var included := Select(Where(rules, revision, Include, hostname.value));
      var excluded := Select(Where(rules, revision, Exclude, hostname.value));
      if excluded.Some? then Decision(false, Excluded, IdOf(included), IdOf(excluded))
      else if included.None? then Decision(false, NotIncluded, None, None)
      else Decision(true, Included, IdOf(included), None)
  }

  /** Patterns as the normaliser makes them, unique per revision and type, with unique ids. */
  ghost predicate WellFormed(rules: seq<Rule>) {
    && (forall r :: r in rules && r.kind == Include ==> IsWildcard(r.pattern))
    && (forall a, b :: a in rules && b in rules && a.id == b.id ==> a == b)
    && (forall a, b :: a in rules && b in rules && a.revision == b.revision && a.kind == b.kind && a.pattern == b.pattern ==> a == b)
  }

  // ----- eligibility

  /** A host is eligible exactly when some include matches and no exclude does. */
  lemma EligibleExactly(revision: int, hostname: string, rules: seq<Rule>)
    ensures MatchCandidate(revision, Some(hostname), rules).eligible <==>
              && (exists r :: r in rules && r.revision == revision && r.kind == Include && Matches(r.pattern, hostname))
              && !(exists r :: r in rules && r.revision == revision && r.kind == Exclude && Matches(r.pattern, hostname))
  {
    var included, excluded := Where(rules, revision, Include, hostname), Where(rules, revision, Exclude, hostname);
    assert included != [] ==> included[0] in included;
    assert excluded != [] ==> excluded[0] in excluded;
  }

  // ----- selection

  lemma {:induction false} NothingIsAbove(rules: seq<Rule>, r: Rule)
    requires r in rules
    ensures !Below(Select(rules).value, r)
  {
    var n := |rules| - 1;
    if r in rules[..n] {
      NothingIsAbove(rules[..n], r);
    } else {
      assert r == rules[n];
    }
  }

  /** The selection depends on which rules there are, not on their order. */
  lemma SelectIgnoresOrder(a: seq<Rule>, b: seq<Rule>)
    requires forall r :: r in a <==> r in b
    requires forall x, y :: x in a && y in a && x.id == y.id ==> x == y
    ensures Select(a) == Select(b)
  {
    assert a != [] ==> a[0] in b;
    assert b != [] ==> b[0] in a;
    if a != [] {
      var x, y := Select(a).value, Select(b).value;
      NothingIsAbove(a, y);
      NothingIsAbove(b, x);
    }
  }

  lemma DecisionIgnoresOrder(revision: int, hostname: Option<string>, a: seq<Rule>, b: seq<Rule>)
    requires forall r :: r in a <==> r in b
    requires WellFormed(a)
    ensures MatchCandidate(revision, hostname, a) == MatchCandidate(revision, hostname, b)
  {
    if hostname.Some? {
      SelectIgnoresOrder(Where(a, revision, Include, hostname.value), Where(b, revision, Include, hostname.value));
      SelectIgnoresOrder(Where(a, revision, Exclude, hostname.value), Where(b, revision, Exclude, hostname.value));
    }
  }

  lemma {:induction false} CountConcat(a: string, b: string, c: char)
    ensures CountOf(a + b, c) == CountOf(a, c) + CountOf(b, c)
  {
    if a == "" {
      assert a + b == b;
    } else {
      assert (a + b)[1..] == a[1..] + b;
      CountConcat(a[1..], b, c);
    }
  }

  /** Of two endings of one string the longer ends with the shorter, and has at least as many dots. */
  lemma EndingsNest(s: string, a: string, b: string)
    requires EndsWith(s, a) && EndsWith(s, b) && |a| <= |b|
    ensures EndsWith(b, a) && CountOf(a, '.') <= CountOf(b, '.') && (|a| == |b| ==> a == b)
  {
    assert b[|b| - |a|..] == s[|s| - |a|..];
    CountConcat(b[..|b| - |a|], a, '.');
    assert b == b[..|b| - |a|] + a;
  }

  lemma WildcardDots(pattern: string)
    requires IsWildcard(pattern)
    ensures CountOf(pattern, '.') == CountOf("." + Suffix(pattern), '.') && |pattern| == |"." + Suffix(pattern)| + 1
  {
    CountConcat("*", "." + Suffix(pattern), '.');
    assert pattern == "*" + ("." + Suffix(pattern));
    assert "*"[1..] == "";
  }

  lemma DottedEndingsNest(a: string, b: string)
    requires EndsWith("." + b, "." + a)
    ensures EndsWith(b, a)
  {
    var n := |b| - |a|;
    assert ("." + b)[n..][1..] == b[n..];
    assert ("." + a)[1..] == a;
  }

  /** Two wildcards that match one host are ordered by length alone, and the longer suffix ends with the shorter. */
  lemma WildcardsNest(hostname: string, a: Rule, b: Rule)
    requires IsWildcard(a.pattern) && IsWildcard(b.pattern) && Matches(a.pattern, hostname) && Matches(b.pattern, hostname)
    requires |a.pattern| <= |b.pattern|
    ensures EndsWith(Suffix(b.pattern), Suffix(a.pattern))
    ensures |a.pattern| < |b.pattern| ==> Below(a, b)
    ensures |a.pattern| == |b.pattern| ==> a.pattern == b.pattern
  {
    WildcardDots(a.pattern);
    WildcardDots(b.pattern);
    EndingsNest(hostname, "." + Suffix(a.pattern), "." + Suffix(b.pattern));
    DottedEndingsNest(Suffix(a.pattern), Suffix(b.pattern));
    assert a.pattern == "*." + Suffix(a.pattern) && b.pattern == "*." + Suffix(b.pattern);
    assert Suffix(b.pattern)[0..] == Suffix(b.pattern);
  }

  /** The chosen include is the most specific one: every other matching include's suffix is a proper ending of its suffix. */
  lemma MostSpecificInclude(revision: int, hostname: string, rules: seq<Rule>, other: Rule)
    requires WellFormed(rules)
    requires other in Where(rules, revision, Include, hostname)
    ensures var chosen := Select(Where(rules, revision, Include, hostname)).value;
            && IsWildcard(chosen.pattern) && IsWildcard(other.pattern)
            && EndsWith(Suffix(chosen.pattern), Suffix(other.pattern))
            && (other != chosen ==> |other.pattern| < |chosen.pattern|)
  {
    var included := Where(rules, revision, Include, hostname);
    var chosen := Select(included).value;
    NothingIsAbove(included, other);
    if |other.pattern| <= |chosen.pattern| {
      WildcardsNest(hostname, other, chosen);
    } else {
      WildcardsNest(hostname, chosen, other);
    }
  }

  /** Ids never decide between includes: whatever the ids, the same patterns lead to the same choice. */
  lemma IdsNeverDecideIncludes(revision: int, hostname: string, a: seq<Rule>, b: seq<Rule>)
    requires WellFormed(a) && WellFormed(b)
    requires forall p :: Has(a, revision, Include, p) <==> Has(b, revision, Include, p)
    ensures var x, y := Select(Where(a, revision, Include, hostname)), Select(Where(b, revision, Include, hostname));
            x.Some? == y.Some? && (x.Some? ==> x.value.pattern == y.value.pattern)
  {
    var x, y := Select(Where(a, revision, Include, hostname)), Select(Where(b, revision, Include, hostname));
    if x.Some? {
      assert Has(a, revision, Include, x.value.pattern);
      var other :| other in b && other.revision == revision && other.kind == Include && other.pattern == x.value.pattern;
      MostSpecificInclude(revision, hostname, b, other);
    }
    if y.Some? {
      assert Has(b, revision, Include, y.value.pattern);
      var other :| other in a && other.revision == revision && other.kind == Include && other.pattern == y.value.pattern;
      MostSpecificInclude(revision, hostname, a, other);
      WildcardsNest(hostname, y.value, x.value);
    }
  }

  ghost predicate Has(rules: seq<Rule>, revision: int, kind: Kind, pattern: string) {
    exists r :: r in rules && r.revision == revision && r.kind == kind && r.pattern == pattern
  }

  /** An exact exclude and a wildcard have the same key exactly when the wildcard covers the host but for one character and its dot. */
  lemma ExcludeTiesExactly(hostname: string, a: Rule, b: Rule)
    requires hostname != "" && hostname[0] != '.'
    requires Matches(a.pattern, hostname) && Matches(b.pattern, hostname)
    requires a.pattern != b.pattern && !IsWildcard(a.pattern)
    ensures IsWildcard(b.pattern)
    ensures CountOf(a.pattern, '.') == CountOf(b.pattern, '.') && |a.pattern| == |b.pattern|
            <==> hostname[1..] == "." + Suffix(b.pattern)
  {
    var tail := "." + Suffix(b.pattern);
    WildcardDots(b.pattern);
    var first := hostname[..|hostname| - |tail|];
    assert hostname == first + tail;
    if |a.pattern| == |b.pattern| {
      assert |first| == 1;
      assert hostname[1..] == tail;
    }
    if hostname[1..] == tail {
      assert hostname == [hostname[0]] + tail;
      CountConcat([hostname[0]], tail, '.');
      assert [hostname[0]][1..] == "";
    }
  }

  /** Two wildcard excludes never tie. */
  lemma WildcardExcludesNeverTie(hostname: string, a: Rule, b: Rule)
    requires IsWildcard(a.pattern) && IsWildcard(b.pattern) && Matches(a.pattern, hostname) && Matches(b.pattern, hostname)
    requires a.pattern != b.pattern
    ensures |a.pattern| != |b.pattern|
  {
    if |a.pattern| == |b.pattern| {
      WildcardsNest(hostname, a, b);
    }
  }

  /** As hostnames are once normalised. */
  predicate IsHost(hostname: string) {
    hostname != "" && hostname[0] != '.' && hostname[0] != '*'
  }

  /** The host's first label is one character, and both it and the wildcard for the rest are excluded. */
  ghost predicate Contested(rules: seq<Rule>, revision: int, hostname: string) {
    && |hostname| >= 2 && hostname[1] == '.'
    && Has(rules, revision, Exclude, hostname) && Has(rules, revision, Exclude, "*" + hostname[1..])
  }

  function ChosenExclude(rules: seq<Rule>, revision: int, hostname: string): Option<Rule> {
    Select(Where(rules, revision, Exclude, hostname))
  }

  /** Where two matching excludes have the same key, the host is contested. */
  lemma TieIsContested(rules: seq<Rule>, revision: int, hostname: string, a: Rule, b: Rule)
    requires IsHost(hostname) && a in Where(rules, revision, Exclude, hostname) && b in Where(rules, revision, Exclude, hostname)
    requires a.pattern != b.pattern
    requires CountOf(a.pattern, '.') == CountOf(b.pattern, '.') && |a.pattern| == |b.pattern|
    ensures Contested(rules, revision, hostname)
  {
    if IsWildcard(a.pattern) && IsWildcard(b.pattern) {
      WildcardExcludesNeverTie(hostname, a, b);
    } else {
      var exact, wild := if IsWildcard(a.pattern) then b else a, if IsWildcard(a.pattern) then a else b;
      ExcludeTiesExactly(hostname, exact, wild);
      assert hostname[1..][0] == '.';
      assert wild.pattern == "*" + hostname[1..];
    }
  }

  /** Whatever the ids, an uncontested host is excluded by the same pattern. */
  lemma UncontestedExclude(revision: int, hostname: string, a: seq<Rule>, b: seq<Rule>)
    requires IsHost(hostname) && !Contested(a, revision, hostname)
    requires forall p :: Has(a, revision, Exclude, p) <==> Has(b, revision, Exclude, p)
    ensures SameExclude(a, b, revision, hostname)
  {
    var x, y := ChosenExclude(a, revision, hostname), ChosenExclude(b, revision, hostname);
    if x.Some? {
      assert Has(a, revision, Exclude, x.value.pattern);
    }
    if y.Some? {
      assert Has(b, revision, Exclude, y.value.pattern);
    }
    if x.Some? && y.Some? {
      var inB :| inB in b && inB.revision == revision && inB.kind == Exclude && inB.pattern == x.value.pattern;
      var inA :| inA in a && inA.revision == revision && inA.kind == Exclude && inA.pattern == y.value.pattern;
      NothingIsAbove(Where(a, revision, Exclude, hostname), inA);
      NothingIsAbove(Where(b, revision, Exclude, hostname), inB);
      if x.value.pattern != y.value.pattern {
        TieIsContested(a, revision, hostname, x.value, inA);
      }
    }
  }

  predicate SameExclude(a: seq<Rule>, b: seq<Rule>, revision: int, hostname: string) {
    var x, y := ChosenExclude(a, revision, hostname), ChosenExclude(b, revision, hostname);
    x.Some? == y.Some? && (x.Some? ==> x.value.pattern == y.value.pattern)
  }

  /** On a contested host the smaller id of the two decides. */
  lemma SmallerIdExcludes(rules: seq<Rule>, revision: int, hostname: string, exact: Rule, wild: Rule)
    requires WellFormed(rules) && IsHost(hostname) && |hostname| >= 2 && hostname[1] == '.'
    requires exact in rules && exact.revision == revision && exact.kind == Exclude && exact.pattern == hostname
    requires wild in rules && wild.revision == revision && wild.kind == Exclude && wild.pattern == "*" + hostname[1..]
    ensures ChosenExclude(rules, revision, hostname) == Some(if exact.id < wild.id then exact else wild)
  {
    var kept := Where(rules, revision, Exclude, hostname);
    assert hostname[1..] == "." + Suffix(wild.pattern);
    assert exact in kept && wild in kept;
    var chosen := Select(kept).value;
    NothingIsAbove(kept, exact);
    NothingIsAbove(kept, wild);
    ExcludeTiesExactly(hostname, exact, wild);
    if chosen != exact && chosen != wild {
      assert IsWildcard(chosen.pattern) && chosen.pattern != wild.pattern;
      NoLongerThanHost(hostname, chosen.pattern);
      WildcardsNest(hostname, chosen, wild);
    }
  }

  lemma NoLongerThanHost(hostname: string, pattern: string)
    requires IsHost(hostname) && IsWildcard(pattern) && Matches(pattern, hostname)
    ensures |pattern| <= |hostname|
  {
    var k := |hostname| - |Suffix(pattern)| - 1;
    assert hostname[k..][0] == '.';
    assert k > 0;
  }

  /** The rules with the ids of the two exchanged. */
  function Exchanged(rules: seq<Rule>, x: Rule, y: Rule): (swapped: seq<Rule>)
    ensures |swapped| == |rules|
  {
    seq(|rules|, i requires 0 <= i < |rules| => Renamed(rules[i], x, y))
  }

  function Renamed(r: Rule, x: Rule, y: Rule): Rule {
    if r == x then r.(id := y.id) else if r == y then r.(id := x.id) else r
  }

  lemma ExchangedHas(rules: seq<Rule>, x: Rule, y: Rule, revision: int, kind: Kind, p: string)
    ensures Has(Exchanged(rules, x, y), revision, kind, p) <==> Has(rules, revision, kind, p)
  {
    var swapped := Exchanged(rules, x, y);
    if Has(rules, revision, kind, p) {
      var r :| r in rules && r.revision == revision && r.kind == kind && r.pattern == p;
      var i :| 0 <= i < |rules| && rules[i] == r;
      assert swapped[i] in swapped;
    }
    if Has(swapped, revision, kind, p) {
      var r :| r in swapped && r.revision == revision && r.kind == kind && r.pattern == p;
      var i :| 0 <= i < |swapped| && swapped[i] == r;
      assert rules[i] in rules;
    }
  }

  lemma ExchangedIsWellFormed(rules: seq<Rule>, x: Rule, y: Rule)
    requires WellFormed(rules) && x in rules && y in rules
    ensures WellFormed(Exchanged(rules, x, y))
  {
    var swapped := Exchanged(rules, x, y);
    forall r | r in swapped
      ensures exists o :: o in rules && r == Renamed(o, x, y)
    {
      var i :| 0 <= i < |swapped| && swapped[i] == r;
      assert rules[i] in rules && r == Renamed(rules[i], x, y);
    }
  }

  /** The ids alone can change which pattern excludes the host. */
  ghost predicate IdsDecide(rules: seq<Rule>, revision: int, hostname: string) {
    exists other: seq<Rule> :: Renumbered(rules, other, revision) && !SameExclude(rules, other, revision, hostname)
  }

  /** The same exclude patterns under other ids. */
  ghost predicate Renumbered(rules: seq<Rule>, other: seq<Rule>, revision: int) {
    WellFormed(other) && forall p :: Has(rules, revision, Exclude, p) <==> Has(other, revision, Exclude, p)
  }

  lemma ContestedIdsDecide(rules: seq<Rule>, revision: int, hostname: string)
    requires WellFormed(rules) && IsHost(hostname) && Contested(rules, revision, hostname)
    ensures IdsDecide(rules, revision, hostname)
  {
    var exact :| exact in rules && exact.revision == revision && exact.kind == Exclude && exact.pattern == hostname;
    var wild :| wild in rules && wild.revision == revision && wild.kind == Exclude && wild.pattern == "*" + hostname[1..];
    var other := Exchanged(rules, exact, wild);
    ExchangedIsWellFormed(rules, exact, wild);
    forall p
      ensures Has(rules, revision, Exclude, p) <==> Has(other, revision, Exclude, p)
    {
      ExchangedHas(rules, exact, wild, revision, Exclude, p);
    }
    var i :| 0 <= i < |rules| && rules[i] == exact;
    var j :| 0 <= j < |rules| && rules[j] == wild;
    assert other[i] in other && other[j] in other;
    assert exact.pattern != wild.pattern by {
      assert wild.pattern[0] == '*';
    }
    SmallerIdExcludes(rules, revision, hostname, exact, wild);
    SmallerIdExcludes(other, revision, hostname, other[i], other[j]);
    assert Renumbered(rules, other, revision);
  }

  /** Ids decide which exclude is reported exactly on contested hosts. */
  lemma IdsDecideExactly(rules: seq<Rule>, revision: int, hostname: string)
    requires WellFormed(rules) && IsHost(hostname)
    ensures IdsDecide(rules, revision, hostname) <==> Contested(rules, revision, hostname)
  {
    if Contested(rules, revision, hostname) {
      ContestedIdsDecide(rules, revision, hostname);
    } else {
      forall other | Renumbered(rules, other, revision)
        ensures SameExclude(rules, other, revision, hostname)
      {
        UncontestedExclude(revision, hostname, rules, other);
      }
    }
  }

  /** Exchanging the ids exchanges the rule that is reported. */
  lemma ExchangedIdsExchangeTheRule(host: string, wild: string, x: int, y: int)
    requires IsHost(host) && |host| >= 2 && host[1] == '.' && wild == "*" + host[1..] && x < y
    ensures ChosenExclude([Rule(x, 0, Exclude, host), Rule(y, 0, Exclude, wild)], 0, host) == Some(Rule(x, 0, Exclude, host))
    ensures ChosenExclude([Rule(y, 0, Exclude, host), Rule(x, 0, Exclude, wild)], 0, host) == Some(Rule(x, 0, Exclude, wild))
  {
    var a, b := [Rule(x, 0, Exclude, host), Rule(y, 0, Exclude, wild)], [Rule(y, 0, Exclude, host), Rule(x, 0, Exclude, wild)];
    assert wild[0] == '*';
    assert a[0] in a && a[1] in a && b[0] in b && b[1] in b;
    SmallerIdExcludes(a, 0, host, a[0], a[1]);
    SmallerIdExcludes(b, 0, host, b[0], b[1]);
  }

  /** For instance on a.example.com. */
  lemma IdsDecideAnExample()
    ensures var host := "a.example.com"; var wild := "*.example.com";
            && ChosenExclude([Rule(1, 0, Exclude, host), Rule(2, 0, Exclude, wild)], 0, host) == Some(Rule(1, 0, Exclude, host))
            && ChosenExclude([Rule(2, 0, Exclude, host), Rule(1, 0, Exclude, wild)], 0, host) == Some(Rule(1, 0, Exclude, wild))
  {
    assert "*.example.com" == "*" + "a.example.com"[1..];
    ExchangedIdsExchangeTheRule("a.example.com", "*.example.com", 1, 2);
  }

  // ----- normalisation

  /** What the normaliser gets from the standard library; the last is lower-casing followed by the IDNA encoding. */
  datatype Library = Library(isSpace: char -> bool, isAddress: string -> bool, toAscii: string -> Option<string>)

  function Labels(s: string): (labels: seq<string>)
    ensures labels != []
  {
    if s == "" then [""]
    else
      var rest := Labels(s[1..]);
      if s[0] == '.' then [""] + rest else [[s[0]] + rest[0]] + rest[1..]
  }

  predicate LabelChar(c: char) {
    'a' <= c <= 'z' || '0' <= c <= '9' || c == '-'
  }

  predicate LabelAllowed(name: string) {
    && 1 <= |name| <= 63 && name[0] != '-' && name[|name| - 1] != '-'
    && forall i :: 0 <= i < |name| ==> LabelChar(name[i])
  }

  predicate HostAllowed(hostname: string) {
    |hostname| <= 253 && forall l :: l in Labels(hostname) ==> LabelAllowed(l)
  }

  function NormalizeHostname(lib: Library, value: string): Option<string> {
    if value == "" || exists i :: 0 <= i < |value| && (lib.isSpace(value[i]) || value[i] in "/?#@:\\[]") then None
    else
      var raw := if value[|value| - 1] == '.' then value[..|value| - 1] else value;
      if raw == "" || raw[|raw| - 1] == '.' || CountOf(raw, '*') > 0 || lib.isAddress(raw) then None
      else
        var hostname := lib.toAscii(raw);
        if hostname.None? || !HostAllowed(hostname.value) then None else hostname
  }

  function NormalizePattern(lib: Library, kind: Kind, value: string): Option<string> {
    var wildcard := IsWildcard(value);
    if CountOf(value, '*') > 0 && !wildcard then None
    else if wildcard && CountOf(value, '*') != 1 then None
    else if kind == Include && !wildcard then None
    else
      var normalized := NormalizeHostname(lib, if wildcard then value[2..] else value);
      if normalized.None? || (wildcard && CountOf(normalized.value, '.') < 1) then None
      else Some(if wildcard then "*." + normalized.value else normalized.value)
  }

  /** What the library does on hostnames that are allowed already: nothing. */
  ghost predicate Plain(lib: Library) {
    && (forall n :: HostAllowed(n) ==> lib.toAscii(n) == Some(n))
    && (forall c :: LabelChar(c) || c == '.' ==> !lib.isSpace(c))
  }

  lemma {:induction false} HostChars(n: string)
    requires forall l :: l in Labels(n) ==> forall i :: 0 <= i < |l| ==> LabelChar(l[i])
    ensures forall i :: 0 <= i < |n| ==> LabelChar(n[i]) || n[i] == '.'
    ensures CountOf(n, '*') == 0
  {
    if n != "" {
      var rest := Labels(n[1..]);
      forall l | l in rest
        ensures forall i :: 0 <= i < |l| ==> LabelChar(l[i])
      {
        if n[0] == '.' {
          assert l in Labels(n);
        } else {
          var first := [n[0]] + rest[0];
          assert first in Labels(n) && first[1..] == rest[0];
          assert l != rest[0] ==> l in rest[1..] && l in Labels(n);
          assert forall i :: 0 <= i < |rest[0]| ==> rest[0][i] == first[i + 1];
        }
      }
      HostChars(n[1..]);
      if n[0] != '.' {
        var first := [n[0]] + rest[0];
        assert first in Labels(n) && first[0] == n[0];
      }
    }
  }

  lemma {:induction false} TrailingDot(n: string)
    ensures n == "" || n[|n| - 1] == '.' ==> Labels(n)[|Labels(n)| - 1] == ""
    ensures n != "" && n[|n| - 1] == '.' ==> |Labels(n)| >= 2
  {
    if n != "" {
      TrailingDot(n[1..]);
    }
  }

  /** An allowed hostname is not empty, does not end in a dot, and consists of plain characters. */
  lemma AllowedIsPlain(n: string)
    requires HostAllowed(n)
    ensures n != "" && n[|n| - 1] != '.' && CountOf(n, '*') == 0
    ensures forall i :: 0 <= i < |n| ==> LabelChar(n[i]) || n[i] == '.'
  {
    HostChars(n);
    TrailingDot(n);
    var last := Labels(n)[|Labels(n)| - 1];
    assert last in Labels(n) && LabelAllowed(last);
  }

  /** Normalising a normalised hostname again gives it back, or refuses it: exactly when it is an IP literal. */
  lemma RenormalizedHostname(lib: Library, n: string)
    requires Plain(lib) && HostAllowed(n)
    ensures NormalizeHostname(lib, n) == if lib.isAddress(n) then None else Some(n)
  {
    AllowedIsPlain(n);
  }

  /**
   Normalised includes are wildcards over at least two labels. Normalising a pattern
   again changes nothing, except that it is refused exactly when its host part has become
   an IP literal: the literal test comes before the encoding.
   */
  lemma NormalizedPatterns(lib: Library, kind: Kind, value: string)
    requires Plain(lib) && NormalizePattern(lib, kind, value).Some?
    ensures var p := NormalizePattern(lib, kind, value).value;
            && (kind == Include ==> IsWildcard(p))
            && (IsWildcard(p) ==> CountOf(Suffix(p), '.') >= 1)
            && NormalizePattern(lib, kind, p) == (if lib.isAddress(if IsWildcard(p) then Suffix(p) else p) then None else Some(p))
  {
    var wildcard := IsWildcard(value);
    var host := if wildcard then value[2..] else value;
    var n := NormalizeHostname(lib, host).value;
    var p := NormalizePattern(lib, kind, value).value;
    AllowedIsPlain(n);
    RenormalizedHostname(lib, n);
    if wildcard {
      assert p[2..] == n;
      CountConcat("*.", n, '*');
      assert "*."[1..] == "." && "."[1..] == "";
    } else {
      assert IsWildcard(p) ==> CountOf(p, '*') > 0;
    }
  }

  /** A library that, like Python's, reads no fullwidth digits as an address but encodes them as digits. */
  function WideDigits(): Library {
    Library(c => c == ' ', s => s == ADDRESS, s => Some(if s == WIDE then ADDRESS else s))
  }

  /** The address with its first label in fullwidth digits. */
  const WIDE := "\U{FF11}\U{FF12}\U{FF17}.0.0.1"

  lemma PatternOfHost(lib: Library, host: string)
    requires CountOf(host, '*') == 0
    ensures var n := NormalizeHostname(lib, host);
            NormalizePattern(lib, Include, "*." + host) == if n.None? || CountOf(n.value, '.') < 1 then None else Some("*." + n.value)
  {
    CountConcat("*.", host, '*');
    assert "*."[1..] == "." && "."[1..] == "";
    assert ("*." + host)[2..] == host;
  }

  /** A host that is no address but is encoded as one gives a pattern that is not accepted itself. */
  lemma NotStable(lib: Library, wide: string, address: string)
    requires Plain(lib) && HostAllowed(address) && CountOf(address, '.') >= 1 && lib.isAddress(address)
    requires wide != "" && wide[|wide| - 1] != '.' && CountOf(wide, '*') == 0
    requires forall i :: 0 <= i < |wide| ==> !lib.isSpace(wide[i]) && wide[i] !in "/?#@:\\[]"
    requires !lib.isAddress(wide) && lib.toAscii(wide) == Some(address)
    ensures NormalizePattern(lib, Include, "*." + wide) == Some("*." + address)
    ensures NormalizePattern(lib, Include, "*." + address) == None
  {
    PatternOfHost(lib, wide);
    AllowedIsPlain(address);
    PatternOfHost(lib, address);
    RenormalizedHostname(lib, address);
  }

  lemma {:induction false} FirstLabel(name: string, rest: string)
    requires '.' !in name
    ensures Labels(name + "." + rest) == [name] + Labels(rest)
    ensures Labels(name) == [name]
  {
    if name == "" {
      assert name + "." + rest == "." + rest;
      assert ("." + rest)[1..] == rest;
    } else {
      assert (name + "." + rest)[1..] == name[1..] + "." + rest;
      FirstLabel(name[1..], rest);
      assert name == [name[0]] + name[1..];
    }
  }

  const ADDRESS := "127.0.0.1"

  lemma AddressLabels()
    ensures Labels(ADDRESS) == ["127", "0", "0", "1"]
  {
    FirstLabel("127", "0.0.1");
    FirstLabel("0", "0.1");
    FirstLabel("0", "1");
    FirstLabel("1", "");
    assert ADDRESS == "127" + "." + "0.0.1" && "0.0.1" == "0" + "." + "0.1" && "0.1" == "0" + "." + "1";
  }

  lemma AddressIsAllowed()
    ensures HostAllowed(ADDRESS)
  {
    AddressLabels();
    assert LabelAllowed("127") && LabelAllowed("0") && LabelAllowed("1");
  }

  lemma AddressHasDots()
    ensures CountOf(ADDRESS, '.') >= 1
  {
    CountConcat("127", ".0.0.1", '.');
    assert ADDRESS == "127" + ".0.0.1";
  }

  lemma WideDigitsArePlain()
    ensures Plain(WideDigits())
  {
    forall n | HostAllowed(n)
      ensures WideDigits().toAscii(n) == Some(n)
    {
      AllowedIsPlain(n);
      assert n[0] != WIDE[0];
    }
  }

  lemma {:induction false} CountOfNone(s: string, c: char)
    requires forall i :: 0 <= i < |s| ==> s[i] != c
    ensures CountOf(s, c) == 0
  {
    if s != "" {
      CountOfNone(s[1..], c);
    }
  }

  lemma WideChars()
    ensures forall i :: 0 <= i < |WIDE| ==> WIDE[i] != '*' && WIDE[i] != ' ' && WIDE[i] !in "/?#@:\\[]"
  {}

  /** The address written in fullwidth digits is normalised to a pattern that is not accepted itself. */
  lemma WideAddressIsNotStable()
    ensures NormalizePattern(WideDigits(), Include, "*." + WIDE) == Some("*." + ADDRESS)
    ensures NormalizePattern(WideDigits(), Include, "*." + ADDRESS) == None
  {
    WideDigitsArePlain();
    AddressIsAllowed();
    AddressHasDots();
    WideChars();
    CountOfNone(WIDE, '*');
    assert WIDE[0] != ADDRESS[0];
    NotStable(WideDigits(), WIDE, ADDRESS);
  }
}
