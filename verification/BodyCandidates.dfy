/**
 Candidate identifiers in a request body schema: a depth-first walk with an explicit
 stack, against a recursive reading of the schema. Depth, nodes and properties are
 bounded. A list or dictionary as "type" cannot be looked up in a set, so where the
 walk gets as far as that test it ends with Python's TypeError.
 */
module BodyCandidates {
  import opened Wrappers
  import opened JsonPointers

  const MAX_DEPTH := 16
  const MAX_NODES := 1024
  const MAX_PROPERTIES := 128

  /** The "type" entry: missing or null, a name, another scalar, or a list or dictionary. */
  datatype Type = NoType | Named(name: string) | OtherScalar | Unhashable

  /** What the walk looks at in a schema. Members are in name order. */
  datatype Schema = Schema(unsupported: bool, kind: Type, hasItems: bool, uuid: bool, properties: Properties)

  datatype Properties = Absent | NotAnObject | Members(list: seq<Property>)

  datatype Property = Property(name: string, child: Child)

  datatype Child = NotASchema | Sub(schema: Schema)

  datatype Error = NodeLimit | DepthLimit | Unsupported | Malformed | PropertyLimit | TypeError

  /** How names and selectors are recognised; the first is told whether the format is uuid. */
  datatype Rules = Rules(identifies: (string, bool) -> bool, patterns: Patterns)

  type Path = seq<string>

  datatype Found = Found(paths: set<Path>, seen: nat)

  predicate IsArray(s: Schema) {
    s.kind == Named("array") || s.hasItems
  }

  /** What is wrong with this schema by itself. */
  function LocalError(s: Schema): Option<Error> {
    if s.unsupported then Some(Unsupported)
    else if IsArray(s) || s.properties.Absent? then None
    else if s.properties.NotAnObject? then Some(Malformed)
    else if s.kind == Unhashable then Some(TypeError)
    else if s.kind != NoType && s.kind != Named("object") then Some(Malformed)
    else if |s.properties.list| > MAX_PROPERTIES then Some(PropertyLimit)
    else None
  }

  /** Whether the walk goes into the properties. */
  predicate Visits(s: Schema) {
    LocalError(s).None? && !IsArray(s) && s.properties.Members?
  }

  predicate IsLeaf(s: Schema) {
    !IsArray(s) && s.properties.Absent?
  }

  predicate Eligible(r: Rules, s: Schema, path: Path) {
    && path != [] && IsLeaf(s) && s.kind != Named("object")
    && r.identifies(path[|path| - 1], s.uuid) && BodySelectorAllowed(r.patterns, Selector(path))
  }

  // ----- the recursive reading

  /** No schema on the way is unsupported, malformed, too deep or too wide. */
  predicate Fine(s: Schema, depth: nat)
    decreases s, 1
  {
    depth <= MAX_DEPTH && LocalError(s).None? && (Visits(s) ==> FineAll(s.properties.list, depth + 1))
  }

  predicate FineAll(list: seq<Property>, depth: nat)
    decreases list, 0
  {
    list == [] || ((list[0].child.Sub? ==> Fine(list[0].child.schema, depth)) && FineAll(list[1..], depth))
  }

  function Size(s: Schema): (n: nat)
    ensures n > 0
    decreases s, 1
  {
    1 + (if Visits(s) then SizeAll(s.properties.list) else 0)
  }

  function SizeAll(list: seq<Property>): nat
    decreases list, 0
  {
    if list == [] then 0
    else (if list[0].child.Sub? then Size(list[0].child.schema) else 0) + SizeAll(list[1..])
  }

  /** The paths of the eligible leaves below. */
  function Leaves(r: Rules, s: Schema, path: Path): set<Path>
    decreases s, 1
  {
    if Visits(s) then LeavesAll(r, s.properties.list, path) else if Eligible(r, s, path) then {path} else {}
  }

  function LeavesAll(r: Rules, list: seq<Property>, path: Path): set<Path>
    decreases list, 0
  {
    if list == [] then {}
    else
      (if list[0].child.Sub? then Leaves(r, list[0].child.schema, path + [list[0].name]) else {})
      + LeavesAll(r, list[1..], path)
  }

  // ----- the walk in recursive form

  function Explore(r: Rules, s: Schema, path: Path, depth: nat, seen: nat): Result<Found, Error>
    decreases s, 1
  {
    if seen + 1 > MAX_NODES then Err(NodeLimit)
    else if depth > MAX_DEPTH then Err(DepthLimit)
    else if LocalError(s).Some? then Err(LocalError(s).value)
    else if Visits(s) then ExploreAll(r, s.properties.list, path, depth + 1, seen + 1)
    else Ok(Found(if Eligible(r, s, path) then {path} else {}, seen + 1))
  }

  function ExploreAll(r: Rules, list: seq<Property>, path: Path, depth: nat, seen: nat): Result<Found, Error>
    decreases list, 0
  {
    if list == [] then Ok(Found({}, seen))
    else if list[0].child.NotASchema? then ExploreAll(r, list[1..], path, depth, seen)
    else
      var x := Explore(r, list[0].child.schema, path + [list[0].name], depth, seen);
      if x.Err? then x else Including(x.value.paths, ExploreAll(r, list[1..], path, depth, x.value.seen))
  }

  function Including(paths: set<Path>, x: Result<Found, Error>): Result<Found, Error> {
    if x.Err? then x else Ok(Found(paths + x.value.paths, x.value.seen))
  }

  /** The walk fails exactly when the schema is not fine or too large; otherwise it finds exactly the eligible leaves. */
  lemma {:induction false} ExploreSucceedsExactly(r: Rules, s: Schema, path: Path, depth: nat, seen: nat)
    ensures Explore(r, s, path, depth, seen).Ok? <==> Fine(s, depth) && seen + Size(s) <= MAX_NODES
    ensures Explore(r, s, path, depth, seen).Ok? ==>
              Explore(r, s, path, depth, seen).value == Found(Leaves(r, s, path), seen + Size(s))
    decreases s, 1
  {
    if Visits(s) && seen + 1 <= MAX_NODES {
      ExploreAllSucceedsExactly(r, s.properties.list, path, depth + 1, seen + 1);
    }
  }

  lemma {:induction false} ExploreAllSucceedsExactly(r: Rules, list: seq<Property>, path: Path, depth: nat, seen: nat)
    requires seen <= MAX_NODES
    ensures ExploreAll(r, list, path, depth, seen).Ok? <==> FineAll(list, depth) && seen + SizeAll(list) <= MAX_NODES
    ensures ExploreAll(r, list, path, depth, seen).Ok? ==>
              ExploreAll(r, list, path, depth, seen).value == Found(LeavesAll(r, list, path), seen + SizeAll(list))
    decreases list, 0
  {
    if list != [] {
      if list[0].child.Sub? {
        ExploreSucceedsExactly(r, list[0].child.schema, path + [list[0].name], depth, seen);
        var x := Explore(r, list[0].child.schema, path + [list[0].name], depth, seen);
        if x.Ok? {
          ExploreAllSucceedsExactly(r, list[1..], path, depth, x.value.seen);
        }
      } else {
        ExploreAllSucceedsExactly(r, list[1..], path, depth, seen);
      }
    }
  }

  // ----- the error that is not one of the walk's own

  /** No schema the walk can come to has an unhashable type where it is tested. */
  predicate Hashable(s: Schema)
    decreases s, 1
  {
    LocalError(s) != Some(TypeError) && (Visits(s) ==> HashableAll(s.properties.list))
  }

  predicate HashableAll(list: seq<Property>)
    decreases list, 0
  {
    list == [] || ((list[0].child.Sub? ==> Hashable(list[0].child.schema)) && HashableAll(list[1..]))
  }

  /** Fine but for unhashable types. */
  predicate OtherwiseFine(s: Schema, depth: nat)
    decreases s, 1
  {
    && depth <= MAX_DEPTH && (LocalError(s).None? || LocalError(s) == Some(TypeError))
    && (Visits(s) ==> OtherwiseFineAll(s.properties.list, depth + 1))
  }

  predicate OtherwiseFineAll(list: seq<Property>, depth: nat)
    decreases list, 0
  {
    list == []
    || ((list[0].child.Sub? ==> OtherwiseFine(list[0].child.schema, depth)) && OtherwiseFineAll(list[1..], depth))
  }

  /** The smallest schema that ends the walk this way: an object without properties whose type is a list. */
  lemma ListTypeEscapes(r: Rules)
    ensures Explore(r, Schema(false, Unhashable, false, false, Members([])), [], 1, 0) == Err(TypeError)
  {}

  /** Without an unhashable type in its way no walk ends so, whatever else is wrong with the schema. */
  lemma {:induction false} HashableNeverEscapes(r: Rules, s: Schema, path: Path, depth: nat, seen: nat)
    requires Hashable(s)
    ensures Explore(r, s, path, depth, seen) != Err(TypeError)
    decreases s, 1
  {
    if Visits(s) {
      HashableAllNeverEscape(r, s.properties.list, path, depth + 1, seen + 1);
    }
  }

  lemma {:induction false} HashableAllNeverEscape(r: Rules, list: seq<Property>, path: Path, depth: nat, seen: nat)
    requires HashableAll(list)
    ensures ExploreAll(r, list, path, depth, seen) != Err(TypeError)
    decreases list, 0
  {
    if list != [] {
      if list[0].child.Sub? {
        HashableNeverEscapes(r, list[0].child.schema, path + [list[0].name], depth, seen);
        var x := Explore(r, list[0].child.schema, path + [list[0].name], depth, seen);
        if x.Ok? {
          HashableAllNeverEscape(r, list[1..], path, depth, x.value.seen);
        }
      } else {
        HashableAllNeverEscape(r, list[1..], path, depth, seen);
      }
    }
  }

  /** On schemas otherwise fine and small enough the walk ends so exactly when there is such a type. */
  lemma {:induction false} EscapesExactly(r: Rules, s: Schema, path: Path, depth: nat, seen: nat)
    requires OtherwiseFine(s, depth) && seen + Size(s) <= MAX_NODES
    ensures Explore(r, s, path, depth, seen) == Err(TypeError) <==> !Hashable(s)
    ensures Hashable(s) ==> Fine(s, depth)
    decreases s, 1
  {
    if Visits(s) {
      AllEscapeExactly(r, s.properties.list, path, depth + 1, seen + 1);
    }
  }

  lemma {:induction false} AllEscapeExactly(r: Rules, list: seq<Property>, path: Path, depth: nat, seen: nat)
    requires OtherwiseFineAll(list, depth) && seen + SizeAll(list) <= MAX_NODES
    ensures ExploreAll(r, list, path, depth, seen) == Err(TypeError) <==> !HashableAll(list)
    ensures HashableAll(list) ==> FineAll(list, depth)
    decreases list, 0
  {
    if list != [] {
      if list[0].child.Sub? {
        var child, name := list[0].child.schema, path + [list[0].name];
        EscapesExactly(r, child, name, depth, seen);
        if Hashable(child) {
          ExploreSucceedsExactly(r, child, name, depth, seen);
          AllEscapeExactly(r, list[1..], path, depth, seen + Size(child));
        }
      } else {
        AllEscapeExactly(r, list[1..], path, depth, seen);
      }
    }
  }

  // ----- the walk as it runs

  datatype Item = Item(schema: Schema, path: Path, depth: nat)

  /** The children in order. */
  function Items(list: seq<Property>, path: Path, depth: nat): seq<Item> {
    if list == [] then []
    else (if list[0].child.Sub? then [Item(list[0].child.schema, path + [list[0].name], depth)] else []) + Items(list[1..], path, depth)
  }

  /** Exploring what is left, topmost first. */
  function ExploreItems(r: Rules, items: seq<Item>, seen: nat): Result<Found, Error> {
    if items == [] then Ok(Found({}, seen))
    else
      var x := Explore(r, items[0].schema, items[0].path, items[0].depth, seen);
      if x.Err? then x else Including(x.value.paths, ExploreItems(r, items[1..], x.value.seen))
  }

  function Reverse(s: seq<Item>): seq<Item> {
    if s == [] then [] else [s[|s| - 1]] + Reverse(s[..|s| - 1])
  }

  lemma ReverseSnoc(s: seq<Item>, x: Item)
    ensures Reverse(s + [x]) == [x] + Reverse(s)
  {
    assert (s + [x])[..|s|] == s;
  }

  lemma {:induction false} ReverseOnto(rest: seq<Item>, s: seq<Item>)
    ensures Reverse(rest + Reverse(s)) == s + Reverse(rest)
    decreases |s|
  {
    if s == [] {
      assert rest + [] == rest;
    } else {
      var last, init := s[|s| - 1], s[..|s| - 1];
      ReverseSplits(rest, init, last, s);
      ReverseOnto(rest + [last], init);
      ReverseSnoc(rest, last);
      Regroup(init, last, Reverse(rest), s);
    }
  }

  lemma ReverseSplits(rest: seq<Item>, init: seq<Item>, last: Item, s: seq<Item>)
    requires s == init + [last]
    ensures rest + Reverse(s) == rest + [last] + Reverse(init)
  {
    ReverseSnoc(init, last);
  }

  lemma Regroup(init: seq<Item>, last: Item, tail: seq<Item>, s: seq<Item>)
    requires s == init + [last]
    ensures init + ([last] + tail) == s + tail
  {}

  lemma {:induction false} ItemsExploreAll(r: Rules, list: seq<Property>, path: Path, depth: nat, seen: nat)
    ensures ExploreItems(r, Items(list, path, depth), seen) == ExploreAll(r, list, path, depth, seen)
    decreases |list|
  {
    if list != [] {
      var rest := Items(list[1..], path, depth);
      if list[0].child.Sub? {
        var first := Item(list[0].child.schema, path + [list[0].name], depth);
        assert ([first] + rest)[1..] == rest;
        var x := Explore(r, first.schema, first.path, depth, seen);
        if x.Ok? {
          ItemsExploreAll(r, list[1..], path, depth, x.value.seen);
        }
      } else {
        assert [] + rest == rest;
        ItemsExploreAll(r, list[1..], path, depth, seen);
      }
    }
  }

  /** Exploring a and then, with what it leaves, b. */
  function Then(r: Rules, x: Result<Found, Error>, b: seq<Item>): Result<Found, Error> {
    if x.Err? then x else Including(x.value.paths, ExploreItems(r, b, x.value.seen))
  }

  lemma ThenIncluding(r: Rules, paths: set<Path>, x: Result<Found, Error>, b: seq<Item>)
    ensures Then(r, Including(paths, x), b) == Including(paths, Then(r, x, b))
  {
    if x.Ok? && ExploreItems(r, b, x.value.seen).Ok? {
      var rest := ExploreItems(r, b, x.value.seen).value.paths;
      assert paths + x.value.paths + rest == paths + (x.value.paths + rest);
    }
  }

  lemma IncludingNothing(x: Result<Found, Error>)
    ensures Including({}, x) == x
  {
    if x.Ok? {
      assert {} + x.value.paths == x.value.paths;
    }
  }

  lemma {:induction false} ExploreConcat(r: Rules, a: seq<Item>, b: seq<Item>, seen: nat)
    ensures ExploreItems(r, a + b, seen) == Then(r, ExploreItems(r, a, seen), b)
    decreases |a|
  {
    if a == [] {
      assert a + b == b;
      IncludingNothing(ExploreItems(r, b, seen));
    } else {
      assert (a + b)[1..] == a[1..] + b;
      var x := Explore(r, a[0].schema, a[0].path, a[0].depth, seen);
      if x.Ok? {
        ExploreConcat(r, a[1..], b, x.value.seen);
        ThenIncluding(r, x.value.paths, ExploreItems(r, a[1..], x.value.seen), b);
      }
    }
  }

  /** How much is left to walk, so that the loop ends. */
  function Work(items: seq<Item>): nat {
    if items == [] then 0 else Work(items[1..]) + Size(items[0].schema)
  }

  lemma {:induction false} WorkConcat(a: seq<Item>, b: seq<Item>)
    ensures Work(a + b) == Work(a) + Work(b)
  {
    if a == [] {
      assert a + b == b;
    } else {
      assert (a + b)[1..] == a[1..] + b;
      WorkConcat(a[1..], b);
    }
  }

  lemma {:induction false} WorkOfItems(list: seq<Property>, path: Path, depth: nat)
    ensures Work(Items(list, path, depth)) == SizeAll(list)
    decreases |list|
  {
    if list != [] {
      WorkOfItems(list[1..], path, depth);
      WorkConcat(if list[0].child.Sub? then [Item(list[0].child.schema, path + [list[0].name], depth)] else [], Items(list[1..], path, depth));
    }
  }

  /** One round of the loop: the popped item either ends the walk, or is replaced by its children, or adds its path. */
  lemma Round(r: Rules, item: Item, rest: seq<Item>, seen: nat)
    requires seen + 1 <= MAX_NODES && item.depth <= MAX_DEPTH && LocalError(item.schema).None?
    ensures var s := item.schema;
            ExploreItems(r, [item] + rest, seen)
            == if Visits(s) then ExploreItems(r, Items(s.properties.list, item.path, item.depth + 1) + rest, seen + 1)
               else Including(if Eligible(r, s, item.path) then {item.path} else {}, ExploreItems(r, rest, seen + 1))
    ensures var s := item.schema;
            Work([item] + rest) == 1 + Work(rest) + if Visits(s) then Work(Items(s.properties.list, item.path, item.depth + 1)) else 0
  {
    var s := item.schema;
    assert ([item] + rest)[1..] == rest;
    if Visits(s) {
      var children := Items(s.properties.list, item.path, item.depth + 1);
      ItemsExploreAll(r, s.properties.list, item.path, item.depth + 1, seen + 1);
      ExploreConcat(r, children, rest, seen + 1);
      WorkOfItems(s.properties.list, item.path, item.depth + 1);
    }
  }

  ghost function Selectors(paths: set<Path>): set<string> {
    set p | p in paths :: Selector(p)
  }

  /** What the walk answers, given what it has collected and what is still to be explored. */
  ghost function Answer(x: Result<Found, Error>, candidates: set<string>): Result<set<string>, Error> {
    if x.Err? then Err(x.error) else Ok(candidates + Selectors(x.value.paths))
  }

  lemma AnswerIncluding(x: Result<Found, Error>, path: Path, candidates: set<string>)
    ensures Answer(Including({path}, x), candidates) == Answer(x, candidates + {Selector(path)})
  {
    if x.Ok? {
      assert Selectors({path} + x.value.paths) == {Selector(path)} + Selectors(x.value.paths);
      assert candidates + ({Selector(path)} + Selectors(x.value.paths)) == candidates + {Selector(path)} + Selectors(x.value.paths);
    }
  }

  /** The stacked form of one schema's children, in the order the loop pushes them. */
  method Push(list: seq<Property>, path: Path, depth: nat) returns (children: seq<Item>)
    ensures children == Items(list, path, depth)
  {
    children := [];
    var i := 0;
    while i < |list|
      invariant 0 <= i <= |list| && children + Items(list[i..], path, depth) == Items(list, path, depth)
    {
      if list[i].child.Sub? {
        children := children + [Item(list[i].child.schema, path + [list[i].name], depth)];
      }
      assert list[i..][1..] == list[i + 1..];
      i := i + 1;
    }
  }

  /** The candidate selectors below a root schema. */
  method DeriveBodyCandidates(r: Rules, root: Schema) returns (x: Result<set<string>, Error>)
    ensures x == Answer(Explore(r, root, [], 1, 0), {})
  {
    var candidates: set<string> := {};
    var pending := [Item(root, [], 1)];
    var seen := 0;
    ghost var goal := Answer(ExploreItems(r, Reverse(pending), seen), candidates);
    StartsWithRoot(r, root);
    while pending != []
      invariant seen <= MAX_NODES && goal == Answer(ExploreItems(r, Reverse(pending), seen), candidates)
      decreases Work(Reverse(pending))
    {
      var item := pending[|pending| - 1];
      ghost var rest := Reverse(pending[..|pending| - 1]);
      assert Reverse(pending) == [item] + rest && ([item] + rest)[0] == item;
      pending := pending[..|pending| - 1];
      if seen + 1 > MAX_NODES {
        return Err(NodeLimit);
      }
      if item.depth > MAX_DEPTH {
        return Err(DepthLimit);
      }
      var e := LocalError(item.schema);
      if e.Some? {
        return Err(e.value);
      }
      Round(r, item, rest, seen);
      seen := seen + 1;
      if Visits(item.schema) {
        var children := Push(item.schema.properties.list, item.path, item.depth + 1);
        ReverseOnto(pending, children);
        WorkConcat(children, rest);
        pending := pending + Reverse(children);
      } else if Eligible(r, item.schema, item.path) {
        AnswerIncluding(ExploreItems(r, rest, seen), item.path, candidates);
        candidates := candidates + {Selector(item.path)};
      } else {
        IncludingNothing(ExploreItems(r, rest, seen));
      }
    }
    assert candidates + Selectors({}) == candidates;
    x := Ok(candidates);
  }

  lemma StartsWithRoot(r: Rules, root: Schema)
    ensures var x := Explore(r, root, [], 1, 0); ExploreItems(r, Reverse([Item(root, [], 1)]), 0) == x
  {
    var item := Item(root, [], 1);
    assert Reverse([item]) == [item] && [item][1..] == [];
    var x := Explore(r, root, [], 1, 0);
    if x.Ok? {
      assert x.value.paths + {} == x.value.paths;
    }
  }

  /** The walk succeeds exactly on fine schemas of at most 1024 nodes, and finds exactly the selectors of the eligible leaves. */
  lemma WalkIsExact(r: Rules, root: Schema)
    ensures var x := Answer(Explore(r, root, [], 1, 0), {});
            && (x.Ok? <==> Fine(root, 1) && Size(root) <= MAX_NODES)
            && (x.Ok? ==> x.value == Selectors(Leaves(r, root, [])))
  {
    ExploreSucceedsExactly(r, root, [], 1, 0);
    assert {} + Selectors(Leaves(r, root, [])) == Selectors(Leaves(r, root, []));
  }

  /** A whole walk ends with Python's TypeError only where there is an unhashable type, and on an otherwise fine schema exactly there. */
  lemma TypeErrorExactly(r: Rules, root: Schema)
    ensures var x := Answer(Explore(r, root, [], 1, 0), {});
            && (x == Err(TypeError) ==> !Hashable(root))
            && (OtherwiseFine(root, 1) && Size(root) <= MAX_NODES ==> (x == Err(TypeError) <==> !Hashable(root)))
  {
    if Hashable(root) {
      HashableNeverEscapes(r, root, [], 1, 0);
    }
    if OtherwiseFine(root, 1) && Size(root) <= MAX_NODES {
      EscapesExactly(r, root, [], 1, 0);
    }
  }

  /** No two leaves share a selector. */
  lemma {:induction false} LeavesKeepApart(paths: set<Path>)
    ensures |Selectors(paths)| == |paths|
    decreases |paths|
  {
    if paths != {} {
      var p: Path :| p in paths;
      LeavesKeepApart(paths - {p});
      if Selector(p) in Selectors(paths - {p}) {
        var q :| q in paths - {p} && Selector(q) == Selector(p);
        SelectorIsInjective(p, q);
      }
      assert Selectors(paths) == Selectors(paths - {p}) + {Selector(p)};
    }
  }
}
