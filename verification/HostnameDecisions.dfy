/** What a hostname decision says: its code, and which rules its two ids name. */
module HostnameDecisions {
  import opened Wrappers
  import opened HostnameRules

  /** A wildcard covers exactly the hosts below its suffix. */
  lemma WildcardCoversExactly(suffix: string, hostname: string)
    ensures Matches("*." + suffix, hostname) <==> exists below :: hostname == below + "." + suffix
  {
    var pattern := "*." + suffix;
    assert Suffix(pattern) == suffix;
    if Matches(pattern, hostname) {
      var below := hostname[..|hostname| - |suffix| - 1];
      assert hostname == below + ("." + suffix) == below + "." + suffix;
    }
    if below :| hostname == below + "." + suffix {
      assert hostname == below + ("." + suffix);
      assert hostname[|hostname| - |"." + suffix|..] == "." + suffix;
    }
  }

  /** A rule of this kind that the revision has and that covers the host. */
  predicate Covers(rules: seq<Rule>, revision: int, kind: Kind, hostname: string, r: Rule) {
    r in rules && r.revision == revision && r.kind == kind && Matches(r.pattern, hostname)
  }

  ghost predicate Covered(rules: seq<Rule>, revision: int, kind: Kind, hostname: string) {
    exists r :: Covers(rules, revision, kind, hostname, r)
  }

  /** More dots, or as many and a longer pattern, or as long and no greater id. */
  predicate Outranks(a: Rule, b: Rule) {
    var da, db := CountOf(a.pattern, '.'), CountOf(b.pattern, '.');
    da > db || (da == db && (|a.pattern| > |b.pattern| || (|a.pattern| == |b.pattern| && a.id <= b.id)))
  }

  /** The id is there exactly if some rule of the kind covers the host, and is that of one that outranks them all. */
  ghost predicate Names(id: Option<int>, rules: seq<Rule>, revision: int, kind: Kind, hostname: string) {
    && (id.Some? <==> Covered(rules, revision, kind, hostname))
    && (id.Some? ==>
          exists r :: Covers(rules, revision, kind, hostname, r) && r.id == id.value
            && forall other :: Covers(rules, revision, kind, hostname, other) ==> Outranks(r, other))
  }

  lemma SelectionNames(rules: seq<Rule>, revision: int, kind: Kind, hostname: string)
    ensures Names(IdOf(Select(Where(rules, revision, kind, hostname))), rules, revision, kind, hostname)
  {
    var kept := Where(rules, revision, kind, hostname);
    forall r
      ensures Covers(rules, revision, kind, hostname, r) <==> r in kept
    {
    }
    if kept != [] {
      var chosen := Select(kept).value;
      assert kept[0] in kept;
      forall other | Covers(rules, revision, kind, hostname, other)
        ensures Outranks(chosen, other)
      {
        NothingIsAbove(kept, other);
      }
      assert Covers(rules, revision, kind, hostname, chosen);
    }
  }

  /**
   The decision is decided by which kinds of rules cover the host, and each id it carries is
   that of the highest ranking rule of its kind.
   */
  lemma {:induction false} DecidedExactly(revision: int, hostname: string, rules: seq<Rule>)
    ensures var d := MatchCandidate(revision, Some(hostname), rules);
            && d.code == (if Covered(rules, revision, Exclude, hostname) then Excluded
                          else if Covered(rules, revision, Include, hostname) then Included else NotIncluded)
            && (d.eligible <==> d.code == Included)
            && Names(d.includeId, rules, revision, Include, hostname)
            && Names(d.excludeId, rules, revision, Exclude, hostname)
  {
    SelectionNames(rules, revision, Include, hostname);
    SelectionNames(rules, revision, Exclude, hostname);
  }

  /** A candidate that cannot be normalised is invalid whatever the rules, and no other is. */
  lemma {:induction false} InvalidExactly(revision: int, hostname: Option<string>, rules: seq<Rule>)
    ensures MatchCandidate(revision, hostname, rules).code == Invalid <==> hostname.None?
    ensures hostname.None? ==> MatchCandidate(revision, hostname, rules) == Decision(false, Invalid, None, None)
  {
    if hostname.Some? {
      DecidedExactly(revision, hostname.value, rules);
    }
  }
}
