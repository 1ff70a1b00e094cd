/** The schema walk in terms of the paths through the schema, without its recursion. */
module BodyPaths {
  import opened Wrappers
  import opened JsonPointers
  import opened BodyCandidates

  /** Following the property names leads from one schema to the other, through schemas the walk goes into. */
  predicate Leads(s: Schema, path: Path, t: Schema)
    decreases |path|
  {
    if path == [] then s == t
    else Visits(s) && exists i :: 0 <= i < |s.properties.list| && Takes(s.properties.list[i], path[0])
                                  && Leads(s.properties.list[i].child.schema, path[1..], t)
  }

  predicate Takes(p: Property, name: string) {
    p.name == name && p.child.Sub?
  }

  /** The same for some of a schema's properties. */
  predicate LeadsFrom(list: seq<Property>, path: Path, t: Schema) {
    path != [] && exists i :: 0 <= i < |list| && Takes(list[i], path[0]) && Leads(list[i].child.schema, path[1..], t)
  }

  lemma LeadsFromFirst(list: seq<Property>, path: Path, t: Schema)
    requires list != []
    ensures LeadsFrom(list, path, t) <==>
              (path != [] && Takes(list[0], path[0]) && Leads(list[0].child.schema, path[1..], t)) || LeadsFrom(list[1..], path, t)
  {
    if LeadsFrom(list, path, t) {
      var i :| 0 <= i < |list| && Takes(list[i], path[0]) && Leads(list[i].child.schema, path[1..], t);
      assert i > 0 ==> list[1..][i - 1] == list[i];
    }
    if LeadsFrom(list[1..], path, t) {
      var i :| 0 <= i < |list[1..]| && Takes(list[1..][i], path[0]) && Leads(list[1..][i].child.schema, path[1..], t);
      assert list[i + 1] == list[1..][i];
    }
  }

  /** What is acceptable in a schema by itself. */
  predicate Acceptable(s: Schema) {
    && !s.unsupported
    && (|| s.kind == Named("array") || s.hasItems || s.properties == Absent
        || (s.properties.Members? && |s.properties.list| <= 128 && (s.kind == NoType || s.kind == Named("object"))))
  }

  lemma AcceptableExactly(s: Schema)
    ensures LocalError(s).None? <==> Acceptable(s)
  {}

  /** A leaf is eligible by the last name on its path, its format, and the selector of the whole path. */
  lemma EligibleByName(r: Rules, s: Schema, parents: Path, name: string)
    ensures Eligible(r, s, parents + [name]) <==>
              && s.kind != Named("array") && !s.hasItems && s.properties == Absent && s.kind != Named("object")
              && r.identifies(name, s.uuid) && BodySelectorAllowed(r.patterns, Selector(parents + [name]))
    ensures !Eligible(r, s, [])
  {}

  // ----- which schemas are fine

  lemma {:induction false} FineLeads(s: Schema, depth: nat, path: Path, t: Schema)
    requires Fine(s, depth) && Leads(s, path, t)
    ensures depth + |path| <= 16 && Acceptable(t)
    decreases s, 1
  {
    AcceptableExactly(s);
    if path != [] {
      FineAllLeads(s.properties.list, depth + 1, path, t);
    }
  }

  lemma {:induction false} FineAllLeads(list: seq<Property>, depth: nat, path: Path, t: Schema)
    requires FineAll(list, depth) && LeadsFrom(list, path, t)
    ensures depth + |path| - 1 <= 16 && Acceptable(t)
    decreases list, 0
  {
    if list != [] {
      LeadsFromFirst(list, path, t);
      if Takes(list[0], path[0]) && Leads(list[0].child.schema, path[1..], t) {
        FineLeads(list[0].child.schema, depth, path[1..], t);
      } else {
        FineAllLeads(list[1..], depth, path, t);
      }
    }
  }

  lemma {:induction false} UnfineLeads(s: Schema, depth: nat) returns (path: Path, t: Schema)
    requires !Fine(s, depth)
    ensures Leads(s, path, t) && !(depth + |path| <= 16 && Acceptable(t))
    decreases s, 1
  {
    AcceptableExactly(s);
    path, t := [], s;
    if depth <= MAX_DEPTH && LocalError(s).None? {
      path, t := UnfineAllLeads(s.properties.list, depth + 1);
    }
  }

  lemma {:induction false} UnfineAllLeads(list: seq<Property>, depth: nat) returns (path: Path, t: Schema)
    requires !FineAll(list, depth)
    ensures LeadsFrom(list, path, t) && !(depth + |path| - 1 <= 16 && Acceptable(t))
    decreases list, 0
  {
    if list[0].child.Sub? && !Fine(list[0].child.schema, depth) {
      var rest;
      rest, t := UnfineLeads(list[0].child.schema, depth);
      path := [list[0].name] + rest;
      assert path[1..] == rest;
    } else {
      path, t := UnfineAllLeads(list[1..], depth);
    }
    LeadsFromFirst(list, path, t);
  }

  /** What the path leads to is acceptable and not too deep. */
  predicate FineAt(s: Schema, depth: nat, path: Path, t: Schema) {
    Leads(s, path, t) ==> depth + |path| <= 16 && Acceptable(t)
  }

  /** A schema is fine exactly when every schema some path leads to is acceptable and not too deep. */
  lemma {:induction false} FineExactly(s: Schema, depth: nat)
    ensures Fine(s, depth) <==> forall path, t :: FineAt(s, depth, path, t)
  {
    if Fine(s, depth) {
      forall path, t
        ensures FineAt(s, depth, path, t)
      {
        if Leads(s, path, t) {
          FineLeads(s, depth, path, t);
        }
      }
    } else {
      var path, t := UnfineLeads(s, depth);
      assert !FineAt(s, depth, path, t);
    }
  }

  // ----- which paths are found

  /** The path leads to an eligible leaf. */
  predicate Reaches(r: Rules, s: Schema, prefix: Path, path: Path, t: Schema) {
    Leads(s, path, t) && !Visits(t) && Eligible(r, t, prefix + path)
  }

  lemma {:induction false} FoundLeads(r: Rules, s: Schema, prefix: Path, found: Path) returns (path: Path, t: Schema)
    requires found in Leaves(r, s, prefix)
    ensures found == prefix + path && Reaches(r, s, prefix, path, t)
    decreases s, 1
  {
    if Visits(s) {
      path, t := FoundAllLeads(r, s.properties.list, prefix, found);
    } else {
      path, t := [], s;
      assert prefix + path == prefix;
    }
  }

  lemma {:induction false} FoundAllLeads(r: Rules, list: seq<Property>, prefix: Path, found: Path) returns (path: Path, t: Schema)
    requires found in LeavesAll(r, list, prefix)
    ensures found == prefix + path && LeadsFrom(list, path, t) && !Visits(t) && Eligible(r, t, prefix + path)
    decreases list, 0
  {
    if list[0].child.Sub? && found in Leaves(r, list[0].child.schema, prefix + [list[0].name]) {
      var rest;
      rest, t := FoundLeads(r, list[0].child.schema, prefix + [list[0].name], found);
      path := LeadsBelow(list, prefix, rest, t);
    } else {
      path, t := FoundAllLeads(r, list[1..], prefix, found);
      LeadsFromFirst(list, path, t);
    }
  }

  lemma LeadsBelow(list: seq<Property>, prefix: Path, rest: Path, t: Schema) returns (path: Path)
    requires list != [] && list[0].child.Sub? && Leads(list[0].child.schema, rest, t)
    ensures LeadsFrom(list, path, t) && prefix + path == prefix + [list[0].name] + rest
  {
    path := [list[0].name] + rest;
    assert path[1..] == rest;
    LeadsFromFirst(list, path, t);
  }

  lemma {:induction false} ReachedIsFound(r: Rules, s: Schema, prefix: Path, path: Path, t: Schema)
    requires Reaches(r, s, prefix, path, t)
    ensures prefix + path in Leaves(r, s, prefix)
    decreases s, 1
  {
    if path == [] {
      assert prefix + path == prefix;
    } else {
      ReachedIsFoundAmong(r, s.properties.list, prefix, path, t);
    }
  }

  lemma {:induction false} ReachedIsFoundAmong(r: Rules, list: seq<Property>, prefix: Path, path: Path, t: Schema)
    requires LeadsFrom(list, path, t) && !Visits(t) && Eligible(r, t, prefix + path)
    ensures prefix + path in LeavesAll(r, list, prefix)
    decreases list, 0
  {
    if list != [] {
      LeadsFromFirst(list, path, t);
      if Takes(list[0], path[0]) && Leads(list[0].child.schema, path[1..], t) {
        assert prefix + [list[0].name] + path[1..] == prefix + path;
        ReachedIsFound(r, list[0].child.schema, prefix + [list[0].name], path[1..], t);
      } else {
        ReachedIsFoundAmong(r, list[1..], prefix, path, t);
      }
    }
  }

  /** Some eligible leaf is at the end of the path. */
  ghost predicate EndsInALeaf(r: Rules, s: Schema, path: Path) {
    exists t :: Reaches(r, s, [], path, t)
  }

  lemma LeafIsReached(r: Rules, s: Schema, path: Path)
    requires path in Leaves(r, s, [])
    ensures EndsInALeaf(r, s, path)
  {
    var p, t := FoundLeads(r, s, [], path);
    assert [] + p == p;
    assert Reaches(r, s, [], path, t);
  }

  /** The walk finds exactly the paths that lead from the root to an eligible leaf. */
  lemma {:induction false} LeavesExactly(r: Rules, s: Schema, path: Path)
    ensures path in Leaves(r, s, []) <==> EndsInALeaf(r, s, path)
  {
    if path in Leaves(r, s, []) {
      LeafIsReached(r, s, path);
    }
    if EndsInALeaf(r, s, path) {
      var t :| Reaches(r, s, [], path, t);
      ReachedIsFound(r, s, [], path, t);
      assert [] + path == path;
    }
  }
}
