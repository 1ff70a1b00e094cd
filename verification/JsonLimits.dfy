/**
 The budgets are exact: the parser accepts precisely what an unbounded parser
 would read as a value within the limits, and its counter is the value's size.

 Soundness first: what a level reads is shallow, readable and counted. Then agreement: two
 parsers under different limits give the same value whenever the narrower one could, and
 the same error whenever the error is not about the limits. Both are shown for the two
 loops, then for one level, and then by induction over the levels.
 */
module JsonLimits {
  import opened Wrappers
  import opened JsonText
  import opened JsonValues
  import opened JsonParser
  import opened JsonRoundTrip

  /** What every value read by f is like. */
  ghost predicate Sound(f: ValueParser, h: int, nodes: int) {
    forall t, n :: f(t, n).Parsed? ==> Good(f(t, n), h, n, nodes)
  }

  ghost predicate Good(p: Parse, h: int, before: int, nodes: int)
    requires p.Parsed?
  {
    Shallow(p.v, h) && AllReadable(p.v) && p.nodes == before + Count(p.v) && p.nodes <= nodes
  }

  ghost predicate GoodItems(items: seq<Json>, h: int) {
    forall i :: 0 <= i < |items| ==> Shallow(items[i], h) && AllReadable(items[i])
  }

  ghost predicate GoodFields(fields: map<string, Json>, h: int) {
    forall k :: k in fields ==> Shallow(fields[k], h) && AllReadable(fields[k])
  }

  lemma CountSnoc(acc: seq<Json>, v: Json)
    ensures CountItems(acc + [v]) == CountItems(acc) + Count(v)
  {
    assert (acc + [v])[..|acc|] == acc;
  }

  lemma {:induction false} ItemsSound(f: ValueParser, text: string, acc: seq<Json>, before: int, h: int, nodes: int)
    requires Sound(f, h, nodes) && GoodItems(acc, h)
    ensures var p := ParseItems(f, text, acc, before);
            p.Parsed? ==>
              && p.v.Arr? && acc <= p.v.items && GoodItems(p.v.items, h)
              && p.nodes == before + CountItems(p.v.items) - CountItems(acc) && before < p.nodes <= nodes
    decreases |text|
  {
    var item := f(SkipSpace(text), before);
    if item.Parsed? {
      assert Good(item, h, before, nodes);
      CountSnoc(acc, item.v);
      var t := SkipSpace(item.rest);
      if t != "" && t[0] == ',' {
        ItemsSound(f, t[1..], acc + [item.v], item.nodes, h, nodes);
      }
    }
  }

  lemma {:induction false} MembersSound(key: KeyParser, f: ValueParser, text: string, acc: map<string, Json>, before: int, h: int, nodes: int)
    requires Sound(f, h, nodes) && GoodFields(acc, h)
    requires forall t, m :: key(t, m).Ok? ==> key(t, m).value.0 !in m
    ensures var p := ParseMembers(key, f, text, acc, before);
            p.Parsed? ==>
              && p.v.Obj? && (forall k :: k in acc ==> k in p.v.fields && p.v.fields[k] == acc[k])
              && GoodFields(p.v.fields, h)
              && p.nodes == before + Count(p.v) - Count(Obj(acc)) && before < p.nodes <= nodes
    decreases |text|
  {
    var head := key(text, acc);
    if head.Ok? {
      var member := f(head.value.1, before);
      if member.Parsed? {
        assert Good(member, h, before, nodes);
        CountNewKey(acc, head.value.0, member.v);
        var fields := acc[head.value.0 := member.v];
        var t := SkipSpace(member.rest);
        if t != "" && t[0] == ',' {
          MembersSound(key, f, t[1..], fields, member.nodes, h, nodes);
        }
      }
    }
  }

  /** A token the scanner accepts denotes an integer that prints readably. */
  lemma ScannedIsReadable(r: string)
    requires ScanInt(r).Some?
    ensures Readable(ScanInt(r).value.0)
  {
    var k := TokenLength(r);
    Pow10Values();
    if r[0] == '-' {
      ToNatBound(r[1..k]);
      Pow10Grows(k - 1, 18);
    }
    ReadableExactly(TokenValue(r));
  }

  lemma ContainerIsGood(v: Json, h: int)
    requires h >= 0
    requires (v.Arr? && GoodItems(v.items, h - 1)) || (v.Obj? && GoodFields(v.fields, h - 1))
    ensures Shallow(v, h) && AllReadable(v)
  {}

  ghost predicate NumbersReadable(lex: Lexer) {
    forall r :: lex.number(r).Some? ==> Readable(lex.number(r).value.0)
  }

  lemma LexerNumbersReadable()
    ensures NumbersReadable(LEXER)
  {
    forall r | LEXER.number(r).Some?
      ensures Readable(LEXER.number(r).value.0)
    {
      ScannedIsReadable(r);
    }
  }

  lemma ArrayBodySound(lex: Lexer, f: ValueParser, r: string, before: int, h: int, nodes: int)
    requires h >= 0 && before + 1 <= nodes && Sound(f, h - 1, nodes)
    requires r != "" && r[0] == '['
    ensures var p := ParseBody(lex, f, r, before + 1); p.Parsed? ==> Good(p, h, before, nodes)
  {
    var t := SkipSpace(r[1..]);
    ItemsSound(f, t, [], before + 1, h - 1, nodes);
    var p := ParseItems(f, t, [], before + 1);
    if p.Parsed? {
      ContainerIsGood(p.v, h);
    }
    ContainerIsGood(Arr([]), h);
  }

  lemma ObjectBodySound(lex: Lexer, f: ValueParser, r: string, before: int, h: int, nodes: int)
    requires h >= 0 && before + 1 <= nodes && Sound(f, h - 1, nodes)
    requires r != "" && r[0] == '{'
    ensures var p := ParseBody(lex, f, r, before + 1); p.Parsed? ==> Good(p, h, before, nodes)
  {
    var t := SkipSpace(r[1..]);
    KeysAreNew(lex);
    MembersSound(KeyAt(lex), f, t, map[], before + 1, h - 1, nodes);
    var p := ParseMembers(KeyAt(lex), f, t, map[], before + 1);
    if p.Parsed? {
      ContainerIsGood(p.v, h);
    }
    ContainerIsGood(Obj(map[]), h);
  }

  lemma KeysAreNew(lex: Lexer)
    ensures forall t, m :: KeyAt(lex)(t, m).Ok? ==> KeyAt(lex)(t, m).value.0 !in m
  {}

  lemma LeafBodySound(lex: Lexer, f: ValueParser, r: string, before: int, h: int, nodes: int)
    requires h >= 0 && before + 1 <= nodes && NumbersReadable(lex)
    requires r == "" || (r[0] != '[' && r[0] != '{')
    ensures var p := ParseBody(lex, f, r, before + 1); p.Parsed? ==> Good(p, h, before, nodes)
  {}

  lemma BodySound(lex: Lexer, f: ValueParser, r: string, before: int, h: int, nodes: int)
    requires h >= 0 && before + 1 <= nodes && NumbersReadable(lex) && Sound(f, h - 1, nodes)
    ensures var p := ParseBody(lex, f, r, before + 1); p.Parsed? ==> Good(p, h, before, nodes)
  {
    if r != "" && r[0] == '[' {
      ArrayBodySound(lex, f, r, before, h, nodes);
    } else if r != "" && r[0] == '{' {
      ObjectBodySound(lex, f, r, before, h, nodes);
    } else {
      LeafBodySound(lex, f, r, before, h, nodes);
    }
  }

  lemma PassSound(lex: Lexer, f: ValueParser, r: string, before: int, h: int, nodes: int, p: Parse)
    requires h >= 0 && before + 1 <= nodes && NumbersReadable(lex) && Sound(f, h - 1, nodes)
    requires p == ParseBody(lex, f, r, before + 1)
    ensures p.Parsed? ==> Good(p, h, before, nodes)
  {
    BodySound(lex, f, r, before, h, nodes);
  }

  lemma LevelSound(lex: Lexer, lim: Limits, value: int -> ValueParser, depth: int, t: string, n: int)
    requires NumbersReadable(lex) && OneLevel(lex, lim, value, depth, t, n)
    requires depth <= lim.depth ==> Sound(value(depth + 1), lim.depth - depth - 1, lim.nodes)
    ensures var p := value(depth)(t, n); p.Parsed? ==> Good(p, lim.depth - depth, n, lim.nodes)
  {
    if depth <= lim.depth && n + 1 <= lim.nodes {
      PassSound(lex, value(depth + 1), SkipSpace(t), n, lim.depth - depth, lim.nodes, value(depth)(t, n));
    }
  }

  lemma {:induction false} LevelsSound(lex: Lexer, lim: Limits, value: int -> ValueParser, depth: int)
    requires NumbersReadable(lex) && Descends(lex, lim, value)
    ensures Sound(value(depth), lim.depth - depth, lim.nodes)
    decreases Levels(lim, depth)
  {
    if depth <= lim.depth {
      LevelsSound(lex, lim, value, depth + 1);
    }
    forall t, n | value(depth)(t, n).Parsed?
      ensures Good(value(depth)(t, n), lim.depth - depth, n, lim.nodes)
    {
      assert OneLevel(lex, lim, value, depth, t, n);
      LevelSound(lex, lim, value, depth, t, n);
    }
  }

  lemma ReadIsGood(lex: Lexer, lim: Limits, text: string, before: int)
    requires NumbersReadable(lex)
    ensures var p := ParseValue(lex, lim, 0, text, before); p.Parsed? ==> Good(p, lim.depth, before, lim.nodes)
  {
    ParsersDescend(lex, lim);
    LevelsSound(lex, lim, Parsers(lex, lim), 0);
    var p := Parsers(lex, lim)(0)(text, before);
  }

  lemma AcceptedIsGood(lex: Lexer, lim: Limits, text: string)
    requires NumbersReadable(lex) && ParseAll(lex, text, lim).Ok?
    ensures var p, v := ParseValue(lex, lim, 0, text, 0), ParseAll(lex, text, lim).value;
            && p == Parsed(v, p.rest, Count(v)) && SkipSpace(p.rest) == ""
            && Shallow(v, lim.depth) && AllReadable(v) && Count(v) <= lim.nodes
  {
    ReadIsGood(lex, lim, text, 0);
  }

  /** An accepted text is consumed whole, its value is within the limits, and the counter is exactly the number of values in it. */
  lemma AcceptedIsWithinLimits(text: string)
    ensures ParseText(text).Ok? ==>
              var p, v := ParseValue(LEXER, LIMITS, 0, text, 0), ParseText(text).value;
              && p == Parsed(v, p.rest, Count(v)) && SkipSpace(p.rest) == ""
              && Shallow(v, MAX_DEPTH) && AllReadable(v) && Count(v) <= MAX_NODES
  {
    if ParseText(text).Ok? {
      LexerNumbersReadable();
      AcceptedIsGood(LEXER, LIMITS, text);
    }
  }

  // ----- exactness: what the budgets turn away is exactly what does not fit

  /** f reads what g reads, and exactly when the value fits. */
  ghost predicate Agrees(f: ValueParser, g: ValueParser, h: int, nodes: int) {
    forall t, n :: Fits(f(t, n), g(t, n), h, nodes)
  }

  ghost predicate Fits(p: Parse, q: Parse, h: int, nodes: int) {
    && (p.Parsed? ==> q == p)
    && (q.Parsed? && Shallow(q.v, h) && q.nodes <= nodes ==> p == q)
    && (p.Failed? && p.error != StructureLimit ==> q == p)
  }

  ghost predicate ShallowItems(items: seq<Json>, h: int) {
    forall i :: 0 <= i < |items| ==> Shallow(items[i], h)
  }

  ghost predicate ShallowFields(fields: map<string, Json>, h: int) {
    forall k :: k in fields ==> Shallow(fields[k], h)
  }

  lemma {:induction false} ItemsAgree(f: ValueParser, g: ValueParser, text: string, acc: seq<Json>, before: int, h: int, nodes: int, wide: Limits)
    requires Agrees(f, g, h, nodes) && Sound(g, wide.depth, wide.nodes) && GoodItems(acc, wide.depth)
    ensures var p, q := ParseItems(f, text, acc, before), ParseItems(g, text, acc, before);
            && (p.Parsed? ==> q == p)
            && (q.Parsed? && q.v.Arr? && ShallowItems(q.v.items, h) && q.nodes <= nodes ==> p == q)
            && (p.Failed? && p.error != StructureLimit ==> q == p)
    decreases |text|
  {
    var item, wider := f(SkipSpace(text), before), g(SkipSpace(text), before);
    assert Fits(item, wider, h, nodes);
    if wider.Parsed? {
      assert Good(wider, wide.depth, before, wide.nodes);
      var t, acc' := SkipSpace(wider.rest), acc + [wider.v];
      assert acc'[|acc|] == wider.v;
      if t != "" && t[0] == ',' {
        ItemsSound(g, t[1..], acc', wider.nodes, wide.depth, wide.nodes);
        ItemsAgree(f, g, t[1..], acc', wider.nodes, h, nodes, wide);
        var q := ParseItems(g, t[1..], acc', wider.nodes);
        assert q.Parsed? ==> q.v.items[|acc|] == wider.v;
      }
    }
  }

  lemma {:induction false} MembersAgree(key: KeyParser, f: ValueParser, g: ValueParser, text: string, acc: map<string, Json>, before: int, h: int, nodes: int, wide: Limits)
    requires Agrees(f, g, h, nodes) && Sound(g, wide.depth, wide.nodes) && GoodFields(acc, wide.depth)
    requires forall t, m :: key(t, m).Ok? ==> key(t, m).value.0 !in m
    ensures var p, q := ParseMembers(key, f, text, acc, before), ParseMembers(key, g, text, acc, before);
            && (p.Parsed? ==> q == p)
            && (q.Parsed? && q.v.Obj? && ShallowFields(q.v.fields, h) && q.nodes <= nodes ==> p == q)
            && (p.Failed? && p.error != StructureLimit ==> q == p)
    decreases |text|
  {
    var head := key(text, acc);
    if head.Ok? {
      var member, wider := f(head.value.1, before), g(head.value.1, before);
      assert Fits(member, wider, h, nodes);
      if wider.Parsed? {
        assert Good(wider, wide.depth, before, wide.nodes);
        var t, acc' := SkipSpace(wider.rest), acc[head.value.0 := wider.v];
        assert acc'[head.value.0] == wider.v;
        if t != "" && t[0] == ',' {
          MembersSound(key, g, t[1..], acc', wider.nodes, wide.depth, wide.nodes);
          MembersAgree(key, f, g, t[1..], acc', wider.nodes, h, nodes, wide);
          var q := ParseMembers(key, g, t[1..], acc', wider.nodes);
          assert q.Parsed? ==> q.v.fields[head.value.0] == wider.v;
        }
      }
    }
  }

  lemma ShallowInside(v: Json, h: int)
    requires Shallow(v, h)
    ensures v.Arr? ==> ShallowItems(v.items, h - 1)
    ensures v.Obj? ==> ShallowFields(v.fields, h - 1)
  {
    if v.Arr? {
      forall i | 0 <= i < |v.items|
        ensures Shallow(v.items[i], h - 1)
      {
        assert Item(v, i) == v.items[i];
      }
    } else if v.Obj? {
      forall k | k in v.fields
        ensures Shallow(v.fields[k], h - 1)
      {
        assert Field(v, k) == v.fields[k];
      }
    }
  }

  lemma BodyAgrees(lex: Lexer, f: ValueParser, g: ValueParser, r: string, before: int, h: int, nodes: int, wide: Limits)
    requires Agrees(f, g, h - 1, nodes) && Sound(g, wide.depth, wide.nodes)
    ensures Fits(ParseBody(lex, f, r, before), ParseBody(lex, g, r, before), h, nodes)
  {
    var q := ParseBody(lex, g, r, before);
    if q.Parsed? && Shallow(q.v, h) {
      ShallowInside(q.v, h);
    }
    if r != "" {
      var t := SkipSpace(r[1..]);
      if r[0] == '[' {
        ItemsSound(g, t, [], before, wide.depth, wide.nodes);
        ItemsAgree(f, g, t, [], before, h - 1, nodes, wide);
      } else if r[0] == '{' {
        KeysAreNew(lex);
        MembersSound(KeyAt(lex), g, t, map[], before, wide.depth, wide.nodes);
        MembersAgree(KeyAt(lex), f, g, t, map[], before, h - 1, nodes, wide);
      }
    }
  }

  predicate Within(lim: Limits, wide: Limits) {
    lim.depth <= wide.depth && lim.nodes <= wide.nodes
  }

  /** The parsers under the narrow and under the wide limits. */
  ghost predicate Pair(lex: Lexer, lim: Limits, wide: Limits, f: int -> ValueParser, g: int -> ValueParser) {
    NumbersReadable(lex) && Within(lim, wide) && Descends(lex, lim, f) && Descends(lex, wide, g)
  }

  lemma PassAgrees(lex: Lexer, f: ValueParser, g: ValueParser, r: string, before: int, h: int, nodes: int, wide: Limits, p: Parse, q: Parse)
    requires Agrees(f, g, h - 1, nodes) && Sound(g, wide.depth, wide.nodes)
    requires p == ParseBody(lex, f, r, before) && q == ParseBody(lex, g, r, before)
    ensures Fits(p, q, h, nodes)
  {
    BodyAgrees(lex, f, g, r, before, h, nodes, wide);
  }

  /** A value that was read takes at least one node. */
  lemma OverBudget(p: Parse, q: Parse, depth: int, h: int, before: int, nodes: int, lim: Limits)
    requires p == Failed(StructureLimit) && (h < 0 || before + 1 > lim.nodes)
    requires q.Parsed? ==> Good(q, depth, before, nodes)
    ensures Fits(p, q, h, lim.nodes)
  {}

  lemma WithinBudgetAgrees(lex: Lexer, lim: Limits, wide: Limits, f: int -> ValueParser, g: int -> ValueParser, depth: int, t: string, n: int)
    requires Within(lim, wide) && depth <= lim.depth && n + 1 <= lim.nodes
    requires OneLevel(lex, lim, f, depth, t, n) && OneLevel(lex, wide, g, depth, t, n)
    requires Agrees(f(depth + 1), g(depth + 1), lim.depth - depth - 1, lim.nodes)
    requires Sound(g(depth + 1), wide.depth - depth - 1, wide.nodes)
    ensures Fits(f(depth)(t, n), g(depth)(t, n), lim.depth - depth, lim.nodes)
  {
    PassAgrees(lex, f(depth + 1), g(depth + 1), SkipSpace(t), n + 1, lim.depth - depth, lim.nodes,
               Limits(wide.depth - depth - 1, wide.nodes), f(depth)(t, n), g(depth)(t, n));
  }

  lemma LevelAgrees(lex: Lexer, lim: Limits, wide: Limits, f: int -> ValueParser, g: int -> ValueParser, depth: int, t: string, n: int)
    requires NumbersReadable(lex) && Within(lim, wide)
    requires OneLevel(lex, lim, f, depth, t, n) && OneLevel(lex, wide, g, depth, t, n)
    requires depth <= lim.depth ==> Agrees(f(depth + 1), g(depth + 1), lim.depth - depth - 1, lim.nodes)
    requires Sound(g(depth + 1), wide.depth - depth - 1, wide.nodes)
    ensures Fits(f(depth)(t, n), g(depth)(t, n), lim.depth - depth, lim.nodes)
  {
    if depth <= lim.depth && n + 1 <= lim.nodes {
      WithinBudgetAgrees(lex, lim, wide, f, g, depth, t, n);
    } else {
      LevelSound(lex, wide, g, depth, t, n);
      OverBudget(f(depth)(t, n), g(depth)(t, n), wide.depth - depth, lim.depth - depth, n, wide.nodes, lim);
    }
  }

  lemma {:induction false} LevelsAgree(lex: Lexer, lim: Limits, wide: Limits, f: int -> ValueParser, g: int -> ValueParser, depth: int)
    requires Pair(lex, lim, wide, f, g)
    ensures Agrees(f(depth), g(depth), lim.depth - depth, lim.nodes)
    decreases Levels(lim, depth)
  {
    if depth <= lim.depth {
      LevelsAgree(lex, lim, wide, f, g, depth + 1);
    }
    LevelsSound(lex, wide, g, depth + 1);
    forall t, n
      ensures Fits(f(depth)(t, n), g(depth)(t, n), lim.depth - depth, lim.nodes)
    {
      assert OneLevel(lex, lim, f, depth, t, n) && OneLevel(lex, wide, g, depth, t, n);
      LevelAgrees(lex, lim, wide, f, g, depth, t, n);
    }
  }

  /** Whether the value fits the limits. */
  ghost predicate Admits(lim: Limits, v: Json) {
    Shallow(v, lim.depth) && Count(v) <= lim.nodes
  }

  lemma AllAgree(lex: Lexer, lim: Limits, wide: Limits, text: string, v: Json)
    requires NumbersReadable(lex) && Within(lim, wide)
    ensures ParseAll(lex, text, lim) == Ok(v) <==> ParseAll(lex, text, wide) == Ok(v) && Admits(lim, v)
    ensures ParseAll(lex, text, lim).Err? && ParseAll(lex, text, lim) != Err(StructureLimit) ==> ParseAll(lex, text, wide) == ParseAll(lex, text, lim)
  {
    ParsersDescend(lex, lim);
    ParsersDescend(lex, wide);
    LevelsAgree(lex, lim, wide, Parsers(lex, lim), Parsers(lex, wide), 0);
    assert Fits(Parsers(lex, lim)(0)(text, 0), Parsers(lex, wide)(0)(text, 0), lim.depth, lim.nodes);
    ReadIsGood(lex, lim, text, 0);
    ReadIsGood(lex, wide, text, 0);
  }

  /** The limits are exact: raising them accepts the same values, and additionally only values that do not fit. */
  lemma LimitsAreExact(wide: Limits, text: string, v: Json)
    requires Within(LIMITS, wide)
    ensures ParseAll(LEXER, text, LIMITS) == Ok(v) <==> ParseAll(LEXER, text, wide) == Ok(v) && Admits(LIMITS, v)
  {
    LexerNumbersReadable();
    AllAgree(LEXER, LIMITS, wide, text, v);
  }

  /**
   Every other error is the text's own: larger limits report the same one, so only what the
   budgets turn away is reported as such. The size of the input is looked at first.
   */
  lemma ErrorsAreTheTextsOwn(wide: Limits, text: string)
    requires Within(LIMITS, wide)
    ensures ParseAll(LEXER, text, LIMITS).Err? && ParseAll(LEXER, text, LIMITS) != Err(StructureLimit) ==>
              ParseAll(LEXER, text, wide) == ParseAll(LEXER, text, LIMITS)
    ensures ParseText(text) == if Utf8Length(text) > 262144 then Err(InputLimit) else ParseAll(LEXER, text, LIMITS)
  {
    LexerNumbersReadable();
    AllAgree(LEXER, LIMITS, wide, text, Null);
  }
}
