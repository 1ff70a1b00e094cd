/**
 The parser accepts exactly the documents of the grammar whose values fit its limits,
 and reads them as the grammar does.

 Both directions go level by level. A level's parser and the relation derived at that
 depth are variables here, tied together by what one takes and the other gives, so that
 no proof looks into more than one level; arrays and objects are read one part at a time.
 The limits come in last, through the exactness of the budgets.
 */
module JsonAcceptance {
  import opened Wrappers
  import opened JsonText
  import opened JsonValues
  import opened JsonParser
  import opened JsonRoundTrip
  import opened JsonLimits
  import G = JsonGrammar

  // ----- blanks

  lemma {:induction false} SkipsBlanks(text: string)
    ensures G.Blanks(text, SkipSpace(text))
    ensures SkipSpace(text) == "" || !IsSpace(SkipSpace(text)[0])
    ensures SkipSpace(SkipSpace(text)) == SkipSpace(text)
  {
    if text != "" && IsSpace(text[0]) {
      SkipsBlanks(text[1..]);
      BlankCons(text, SkipSpace(text));
    } else {
      assert text[0..] == text;
    }
  }

  lemma BlankCons(text: string, rest: string)
    requires text != "" && G.Blank(text[0]) && G.Blanks(text[1..], rest)
    ensures G.Blanks(text, rest)
  {
    var k :| 0 <= k <= |text[1..]| && (forall i :: 0 <= i < k ==> G.Blank(text[1..][i])) && text[1..][k..] == rest;
    assert text[k + 1..] == rest;
    assert forall i :: 1 <= i < k + 1 ==> text[i] == text[1..][i - 1];
  }

  /** However many blanks are taken before something that is none, the parser skips the same. */
  lemma {:induction false} BlanksAreSkipped(text: string, rest: string)
    requires G.Blanks(text, rest)
    ensures SkipSpace(text) == SkipSpace(rest)
    decreases |text|
  {
    var k :| 0 <= k <= |text| && (forall i :: 0 <= i < k ==> G.Blank(text[i])) && text[k..] == rest;
    if k == 0 {
      assert text[0..] == text;
    } else {
      assert text[1..][k - 1..] == rest;
      assert forall i :: 0 <= i < k - 1 ==> text[1..][i] == text[i + 1];
      BlanksAreSkipped(text[1..], rest);
    }
  }

  lemma BlanksReach(text: string, rest: string)
    requires G.Blanks(text, rest) && rest != "" && !IsSpace(rest[0])
    ensures SkipSpace(text) == rest && text != "" && (text == rest || IsSpace(text[0]))
  {
    BlanksAreSkipped(text, rest);
  }

  /** What may stand between two values. */
  lemma BlanksBreak(a: string, b: string)
    requires G.Blanks(a, b) && (b == "" || b[0] == ',' || b[0] == ']' || b[0] == '}')
    ensures Breaks(a)
  {
    var k :| 0 <= k <= |a| && (forall i :: 0 <= i < k ==> G.Blank(a[i])) && a[k..] == b;
    if k == 0 {
      assert a[0..] == a;
    }
  }

  // ----- the scanners

  ghost predicate Lexes(lex: Lexer) {
    && (forall r, s, rest :: lex.text(r) == Some((s, rest)) <==> G.TextBody(r, s, rest))
    && (forall r, n, rest :: lex.number(r) == Some((n, rest)) ==> G.IntegerText(r, n, rest))
    && (forall r, n, rest :: G.IntegerText(r, n, rest) && Readable(n) && Breaks(rest) ==> lex.number(r) == Some((n, rest)))
  }

  lemma NumberIsText(r: string, n: int, rest: string)
    requires ScanInt(r) == Some((n, rest))
    ensures G.IntegerText(r, n, rest)
  {
    G.TokenDenotes(r);
    assert r == r[..TokenLength(r)] + rest;
  }

  lemma TextIsNumber(r: string, n: int, rest: string)
    requires G.IntegerText(r, n, rest) && Readable(n) && Breaks(rest)
    ensures ScanInt(r) == Some((n, rest))
  {
    var t :| G.Denotes(t, n) && r == t + rest;
    G.IntExactly(t, rest, n);
  }

  lemma LexerLexes()
    ensures Lexes(LEXER)
  {
    forall r, s, rest
      ensures LEXER.text(r) == Some((s, rest)) <==> G.TextBody(r, s, rest)
    {
      G.StringExactly(r, s, rest);
    }
    forall r, n, rest | LEXER.number(r) == Some((n, rest))
      ensures G.IntegerText(r, n, rest)
    {
      NumberIsText(r, n, rest);
    }
    forall r, n, rest | G.IntegerText(r, n, rest) && Readable(n) && Breaks(rest)
      ensures LEXER.number(r) == Some((n, rest))
    {
      TextIsNumber(r, n, rest);
    }
  }

  // ----- everything the grammar derives is read

  /** The parser of a level reads whatever the relation derives, as long as nodes are left. */
  ghost predicate Takes(value: ValueParser, inner: G.Reading, good: Json -> bool, nodes: int) {
    forall t, v, rest, before :: TakesAt(value, inner, good, nodes, t, v, rest, before)
  }

  ghost predicate TakesAt(value: ValueParser, inner: G.Reading, good: Json -> bool, nodes: int, t: string, v: Json, rest: string, before: int) {
    inner(t, v, rest) && good(v) && Breaks(rest) && before + Count(v) <= nodes ==>
      value(t, before) == Parsed(v, rest, before + Count(v)) && value(SkipSpace(t), before) == Parsed(v, rest, before + Count(v))
  }

  lemma {:induction false} CountItemsCons(items: seq<Json>)
    requires items != []
    ensures CountItems(items) == Count(items[0]) + CountItems(items[1..])
  {
    if |items| > 1 {
      var n := |items| - 1;
      CountItemsCons(items[..n]);
      assert items[1..][..n - 1] == items[..n][1..];
    } else {
      assert items[..0] == [] && items[1..] == [];
    }
  }

  ghost predicate GoodElements(good: Json -> bool, items: seq<Json>) {
    forall i :: 0 <= i < |items| ==> good(items[i])
  }

  ghost predicate GoodMembers(good: Json -> bool, fields: map<string, Json>) {
    forall k :: k in fields ==> good(fields[k])
  }

  /** One item and what follows it. */
  lemma TakesItem(value: ValueParser, inner: G.Reading, good: Json -> bool, text: string, v: Json, a: string, b: string, acc: seq<Json>, before: int, nodes: int)
    requires Takes(value, inner, good, nodes) && inner(text, v, a) && good(v) && before + Count(v) <= nodes
    requires G.Blanks(a, b) && b != "" && (b[0] == ']' || b[0] == ',')
    ensures ParseItems(value, text, acc, before)
            == if b[0] == ']' then Parsed(Arr(acc + [v]), b[1..], before + Count(v))
               else ParseItems(value, b[1..], acc + [v], before + Count(v))
  {
    BlanksBreak(a, b);
    BlanksReach(a, b);
    assert TakesAt(value, inner, good, nodes, text, v, a, before);
  }

  lemma FirstElement(inner: G.Reading, text: string, items: seq<Json>, rest: string) returns (a: string, b: string)
    requires items != [] && G.Elements(inner, text, items, rest)
    ensures inner(text, items[0], a) && G.Blanks(a, b) && b != ""
    ensures |items| == 1 ==> b[0] == ']' && b[1..] == rest
    ensures |items| > 1 ==> b[0] == ',' && G.Elements(inner, b[1..], items[1..], rest)
  {
    a, b :| inner(text, items[0], a) && G.Blanks(a, b)
      && if |items| == 1 then b == "]" + rest else b != "" && b[0] == ',' && G.Elements(inner, b[1..], items[1..], rest);
  }

  /** A parser of the rest of an array, given the items and the nodes so far, and how it moves on by one item. */
  type ItemsParser = (string, seq<Json>, int) -> Parse

  ghost predicate ItemsStep(parse: ItemsParser, inner: G.Reading, good: Json -> bool, nodes: int) {
    forall text, v, a, b, acc, before :: ItemStep(parse, inner, good, nodes, text, v, a, b, acc, before)
  }

  ghost predicate ItemStep(parse: ItemsParser, inner: G.Reading, good: Json -> bool, nodes: int, text: string, v: Json, a: string, b: string, acc: seq<Json>, before: int) {
    inner(text, v, a) && good(v) && before + Count(v) <= nodes && G.Blanks(a, b) && b != "" ==>
      && (b[0] == ']' ==> parse(text, acc, before) == Parsed(Arr(acc + [v]), b[1..], before + Count(v)))
      && (b[0] == ',' ==> parse(text, acc, before) == parse(b[1..], acc + [v], before + Count(v)))
  }

  lemma ParseItemsSteps(value: ValueParser, inner: G.Reading, good: Json -> bool, nodes: int)
    requires Takes(value, inner, good, nodes)
    ensures ItemsStep((text, acc, before) => ParseItems(value, text, acc, before), inner, good, nodes)
  {
    var parse := (text, acc, before) => ParseItems(value, text, acc, before);
    forall text, v, a, b, acc, before
      ensures ItemStep(parse, inner, good, nodes, text, v, a, b, acc, before)
    {
      if inner(text, v, a) && good(v) && before + Count(v) <= nodes && G.Blanks(a, b) && b != "" && (b[0] == ']' || b[0] == ',') {
        TakesItem(value, inner, good, text, v, a, b, acc, before, nodes);
      }
    }
  }

  lemma {:induction false} ElementsAreParsed(parse: ItemsParser, inner: G.Reading, good: Json -> bool, text: string, items: seq<Json>, rest: string, acc: seq<Json>, before: int, nodes: int)
    requires ItemsStep(parse, inner, good, nodes) && items != [] && GoodElements(good, items)
    requires G.Elements(inner, text, items, rest) && before + CountItems(items) <= nodes
    ensures parse(text, acc, before) == Parsed(Arr(acc + items), rest, before + CountItems(items))
    decreases |items|
  {
    var a, b := FirstElement(inner, text, items, rest);
    CountItemsCons(items);
    assert ItemStep(parse, inner, good, nodes, text, items[0], a, b, acc, before);
    if |items| == 1 {
      assert items == [items[0]] && CountItems(items[1..]) == 0;
    } else {
      ElementsAreParsed(parse, inner, good, b[1..], items[1..], rest, acc + [items[0]], before + Count(items[0]), nodes);
      assert acc + [items[0]] + items[1..] == acc + items;
    }
  }

  lemma ElementsAreRead(value: ValueParser, inner: G.Reading, good: Json -> bool, text: string, items: seq<Json>, rest: string, before: int, nodes: int)
    requires Takes(value, inner, good, nodes) && items != [] && GoodElements(good, items)
    requires G.Elements(inner, text, items, rest) && before + CountItems(items) <= nodes
    ensures ParseItems(value, text, [], before) == Parsed(Arr(items), rest, before + CountItems(items))
  {
    var parse := (text, acc, before) => ParseItems(value, text, acc, before);
    ParseItemsSteps(value, inner, good, nodes);
    ElementsAreParsed(parse, inner, good, text, items, rest, [], before, nodes);
    assert [] + items == items;
  }

  /** Keys are read as the grammar names them. */
  ghost predicate Names(key: KeyParser) {
    forall text, k, rest, acc :: NamesAt(key, text, k, rest, acc)
  }

  ghost predicate NamesAt(key: KeyParser, text: string, k: string, rest: string, acc: map<string, Json>) {
    && (G.Name(text, k, rest) && k !in acc ==> key(text, acc) == Ok((k, rest)))
    && (key(text, acc) == Ok((k, rest)) ==> G.Name(text, k, rest) && k !in acc)
  }

  lemma NameIsRead(lex: Lexer, text: string, k: string, rest: string, acc: map<string, Json>)
    requires Lexes(lex) && G.Name(text, k, rest) && k !in acc
    ensures ParseKey(lex, text, acc) == Ok((k, rest))
  {
    var a, b, c :| G.Blanks(text, a) && G.StringText(a, k, b) && G.Blanks(b, c) && c == ":" + rest;
    BlanksReach(text, a);
    BlanksReach(b, c);
    assert lex.text(a[1..]) == Some((k, b));
    assert c[1..] == rest;
  }

  lemma NameFrom(text: string, k: string, a: string, b: string, c: string)
    requires G.Blanks(text, a) && G.StringText(a, k, b) && G.Blanks(b, c) && c != "" && c[0] == ':'
    ensures G.Name(text, k, c[1..])
  {
    assert c == ":" + c[1..];
  }

  lemma KeyParts(lex: Lexer, text: string, acc: map<string, Json>) returns (b: string)
    requires ParseKey(lex, text, acc).Ok?
    ensures var (k, rest), a := ParseKey(lex, text, acc).value, SkipSpace(text);
            && a != "" && a[0] == '\"' && lex.text(a[1..]) == Some((k, b)) && k !in acc
            && SkipSpace(b) != "" && SkipSpace(b)[0] == ':' && rest == SkipSpace(b)[1..]
  {
    b := lex.text(SkipSpace(text)[1..]).value.1;
  }

  lemma ReadIsName(lex: Lexer, text: string, acc: map<string, Json>)
    requires Lexes(lex) && ParseKey(lex, text, acc).Ok?
    ensures var (k, rest) := ParseKey(lex, text, acc).value; G.Name(text, k, rest) && k !in acc
  {
    var k := ParseKey(lex, text, acc).value.0;
    var b := KeyParts(lex, text, acc);
    SkipsBlanks(text);
    SkipsBlanks(b);
    NameFrom(text, k, SkipSpace(text), b, SkipSpace(b));
  }

  /** A key that was there before, whatever follows it. */
  ghost predicate Repeats(text: string, acc: map<string, Json>, a: string, k: string, b: string) {
    G.Blanks(text, a) && G.StringText(a, k, b) && k in acc
  }

  ghost predicate IsRepeated(text: string, acc: map<string, Json>) {
    exists a, k, b :: Repeats(text, acc, a, k, b)
  }

  lemma DuplicateIsRepeated(lex: Lexer, text: string, acc: map<string, Json>)
    requires Lexes(lex) && ParseKey(lex, text, acc) == Err(DuplicateKey)
    ensures IsRepeated(text, acc)
  {
    var a := SkipSpace(text);
    var (k, b) := lex.text(a[1..]).value;
    SkipsBlanks(text);
    assert Repeats(text, acc, a, k, b);
  }

  lemma RepeatedIsDuplicate(lex: Lexer, text: string, acc: map<string, Json>, a: string, k: string, b: string)
    requires Lexes(lex) && Repeats(text, acc, a, k, b)
    ensures ParseKey(lex, text, acc) == Err(DuplicateKey)
  {
    BlanksReach(text, a);
    assert lex.text(a[1..]) == Some((k, b));
  }

  /** A duplicate is reported exactly for a key that is spelled out and was there before. */
  lemma DuplicateExactly(lex: Lexer, text: string, acc: map<string, Json>)
    requires Lexes(lex)
    ensures ParseKey(lex, text, acc) == Err(DuplicateKey) <==> IsRepeated(text, acc)
  {
    if ParseKey(lex, text, acc) == Err(DuplicateKey) {
      DuplicateIsRepeated(lex, text, acc);
    }
    if IsRepeated(text, acc) {
      var a, k, b :| Repeats(text, acc, a, k, b);
      RepeatedIsDuplicate(lex, text, acc, a, k, b);
    }
  }

  lemma KeysAreNames(lex: Lexer)
    requires Lexes(lex)
    ensures Names(KeyAt(lex))
  {
    forall text, k, rest, acc
      ensures NamesAt(KeyAt(lex), text, k, rest, acc)
    {
      if G.Name(text, k, rest) && k !in acc {
        NameIsRead(lex, text, k, rest, acc);
      }
      if KeyAt(lex)(text, acc) == Ok((k, rest)) {
        ReadIsName(lex, text, acc);
      }
    }
  }

  /** One member and what follows it. */
  lemma TakesField(key: KeyParser, value: ValueParser, inner: G.Reading, good: Json -> bool, text: string, k: string, v: Json, a: string, b: string, c: string, acc: map<string, Json>, before: int, nodes: int)
    requires Names(key) && Takes(value, inner, good, nodes) && G.Name(text, k, a) && k !in acc
    requires inner(a, v, b) && good(v) && before + Count(v) <= nodes
    requires G.Blanks(b, c) && c != "" && (c[0] == '}' || c[0] == ',')
    ensures ParseMembers(key, value, text, acc, before)
            == if c[0] == '}' then Parsed(Obj(acc[k := v]), c[1..], before + Count(v))
               else ParseMembers(key, value, c[1..], acc[k := v], before + Count(v))
  {
    BlanksBreak(b, c);
    BlanksReach(b, c);
    assert NamesAt(key, text, k, a, acc);
    assert TakesAt(value, inner, good, nodes, a, v, b, before);
  }

  lemma FieldCount(fields: map<string, Json>, k: string)
    requires k in fields
    ensures Count(Obj(fields)) == Count(fields[k]) + Count(Obj(fields - {k}))
  {
    assert (fields - {k})[k := fields[k]] == fields;
    CountNewKey(fields - {k}, k, fields[k]);
  }

  lemma MergeOne(acc: map<string, Json>, fields: map<string, Json>, k: string)
    requires k in fields && acc.Keys !! fields.Keys
    ensures acc[k := fields[k]] + (fields - {k}) == acc + fields
    ensures acc[k := fields[k]].Keys !! (fields - {k}).Keys
    ensures fields - {k} == map[] ==> acc[k := fields[k]] == acc + fields
  {}

  lemma NoMembers()
    ensures Count(Obj(map[])) == 1
  {
    var none: map<string, Json> := map[];
    assert none.Keys == {};
  }

  lemma FirstMember(member: G.MemberReading, text: string, fields: map<string, Json>, rest: string) returns (k: string, a: string, b: string)
    requires fields != map[] && G.Members(member, text, fields, rest)
    ensures k in fields && member(text, k, fields[k], a) && G.Blanks(a, b) && b != ""
    ensures fields - {k} == map[] ==> b[0] == '}' && b[1..] == rest
    ensures fields - {k} != map[] ==> b[0] == ',' && G.Members(member, b[1..], fields - {k}, rest)
  {
    k, a, b :| k in fields && member(text, k, fields[k], a) && G.Blanks(a, b)
      && if fields - {k} == map[] then b == "}" + rest
         else b != "" && b[0] == ',' && G.Members(member, b[1..], fields - {k}, rest);
  }

  type MembersParser = (string, map<string, Json>, int) -> Parse

  ghost predicate MembersStep(parse: MembersParser, member: G.MemberReading, good: Json -> bool, nodes: int) {
    forall text, k, v, a, b, acc, before :: MemberStep(parse, member, good, nodes, text, k, v, a, b, acc, before)
  }

  ghost predicate MemberStep(parse: MembersParser, member: G.MemberReading, good: Json -> bool, nodes: int, text: string, k: string, v: Json, a: string, b: string, acc: map<string, Json>, before: int) {
    member(text, k, v, a) && k !in acc && good(v) && before + Count(v) <= nodes && G.Blanks(a, b) && b != "" ==>
      && (b[0] == '}' ==> parse(text, acc, before) == Parsed(Obj(acc[k := v]), b[1..], before + Count(v)))
      && (b[0] == ',' ==> parse(text, acc, before) == parse(b[1..], acc[k := v], before + Count(v)))
  }

  lemma ParseMembersSteps(key: KeyParser, value: ValueParser, inner: G.Reading, good: Json -> bool, nodes: int)
    requires Names(key) && Takes(value, inner, good, nodes)
    ensures MembersStep((text, acc, before) => ParseMembers(key, value, text, acc, before), G.MemberOf(inner), good, nodes)
  {
    var parse := (text, acc, before) => ParseMembers(key, value, text, acc, before);
    var member := G.MemberOf(inner);
    forall text, k, v, a, b, acc, before
      ensures MemberStep(parse, member, good, nodes, text, k, v, a, b, acc, before)
    {
      if member(text, k, v, a) && k !in acc && good(v) && before + Count(v) <= nodes
         && G.Blanks(a, b) && b != "" && (b[0] == '}' || b[0] == ',') {
        var after :| G.Name(text, k, after) && inner(after, v, a);
        TakesField(key, value, inner, good, text, k, v, after, a, b, acc, before, nodes);
      }
    }
  }

  /** The values of some members, counted. */
  ghost function Spent(fields: map<string, Json>): int { Count(Obj(fields)) - 1 }

  /** Where an object stands: the text, the members still to come, those so far, and the nodes. */
  datatype Point = Point(text: string, left: map<string, Json>, acc: map<string, Json>, before: int)

  ghost predicate Ready(member: G.MemberReading, good: Json -> bool, rest: string, nodes: int, goal: Parse, p: Point) {
    && p.left != map[] && GoodMembers(good, p.left) && p.acc.Keys !! p.left.Keys
    && G.Members(member, p.text, p.left, rest) && p.before + Spent(p.left) <= nodes
    && goal == Parsed(Obj(p.acc + p.left), rest, p.before + Spent(p.left))
  }

  /** One member further the parser has the same to do with less. */
  ghost predicate Moves<S(!new)>(parse: S -> Parse, ready: S -> bool, size: S -> nat, goal: Parse, s: S) {
    ready(s) ==> parse(s) == goal || exists t :: ready(t) && size(t) < size(s) && parse(t) == parse(s)
  }

  lemma {:induction false} MovesToTheGoal<S(!new)>(parse: S -> Parse, ready: S -> bool, size: S -> nat, goal: Parse, s: S)
    requires forall t :: Moves(parse, ready, size, goal, t)
    requires ready(s)
    ensures parse(s) == goal
    decreases size(s)
  {
    assert Moves(parse, ready, size, goal, s);
    if parse(s) != goal {
      var t :| ready(t) && size(t) < size(s) && parse(t) == parse(s);
      MovesToTheGoal(parse, ready, size, goal, t);
    }
  }

  /** Taking one member from what is left to what was read keeps the rest of the account. */
  lemma PointMoves(good: Json -> bool, rest: string, goal: Parse, p: Point, k: string, q: Point)
    requires k in p.left && GoodMembers(good, p.left) && p.acc.Keys !! p.left.Keys
    requires goal == Parsed(Obj(p.acc + p.left), rest, p.before + Spent(p.left))
    requires q.left == p.left - {k} && q.acc == p.acc[k := p.left[k]] && q.before == p.before + Count(p.left[k])
    ensures good(p.left[k]) && k !in p.acc && GoodMembers(good, q.left) && q.acc.Keys !! q.left.Keys && |q.left| < |p.left|
    ensures q.before + Spent(q.left) == p.before + Spent(p.left) && Spent(q.left) >= 0
    ensures goal == Parsed(Obj(q.acc + q.left), rest, q.before + Spent(q.left))
    ensures q.left == map[] ==> goal == Parsed(Obj(q.acc), rest, q.before)
  {
    SpentFirst(p.left, k);
    MergeOne(p.acc, p.left, k);
    FewerMembers(p.left, k);
  }

  lemma FirstPoint(member: G.MemberReading, good: Json -> bool, rest: string, nodes: int, goal: Parse, p: Point)
      returns (k: string, v: Json, a: string, b: string, q: Point)
    requires Ready(member, good, rest, nodes, goal, p)
    ensures member(p.text, k, v, a) && G.Blanks(a, b) && b != "" && good(v) && k !in p.acc && p.before + Count(v) <= nodes
    ensures q.text == b[1..] && q.acc == p.acc[k := v] && q.before == p.before + Count(v)
    ensures b[0] == '}' ==> goal == Parsed(Obj(q.acc), b[1..], q.before)
    ensures b[0] != '}' ==> b[0] == ',' && Ready(member, good, rest, nodes, goal, q) && |q.left| < |p.left|
  {
    k, a, b := FirstMember(member, p.text, p.left, rest);
    v := p.left[k];
    q := Point(b[1..], p.left - {k}, p.acc[k := v], p.before + Count(v));
    PointMoves(good, rest, goal, p, k, q);
  }

  lemma MovesOn(parse: MembersParser, member: G.MemberReading, good: Json -> bool, nodes: int, goal: Parse, p: Point, k: string, v: Json, a: string, b: string, q: Point)
    requires MembersStep(parse, member, good, nodes)
    requires member(p.text, k, v, a) && G.Blanks(a, b) && b != "" && good(v) && k !in p.acc && p.before + Count(v) <= nodes
    requires q.text == b[1..] && q.acc == p.acc[k := v] && q.before == p.before + Count(v)
    requires b[0] == '}' ==> goal == Parsed(Obj(q.acc), b[1..], q.before)
    ensures b[0] == '}' ==> parse(p.text, p.acc, p.before) == goal
    ensures b[0] == ',' ==> parse(q.text, q.acc, q.before) == parse(p.text, p.acc, p.before)
  {
    assert MemberStep(parse, member, good, nodes, p.text, k, v, a, b, p.acc, p.before);
  }

  lemma SpentFirst(fields: map<string, Json>, k: string)
    requires k in fields
    ensures Spent(fields) == Count(fields[k]) + Spent(fields - {k}) && Spent(fields - {k}) >= 0
    ensures fields - {k} == map[] ==> Spent(fields - {k}) == 0
  {
    FieldCount(fields, k);
    NoMembers();
  }

  lemma MembersAreParsed(parse: MembersParser, member: G.MemberReading, good: Json -> bool, rest: string, nodes: int, goal: Parse, p: Point)
    requires MembersStep(parse, member, good, nodes) && Ready(member, good, rest, nodes, goal, p)
    ensures parse(p.text, p.acc, p.before) == goal
  {
    var at := (q: Point) => parse(q.text, q.acc, q.before);
    var ready := (q: Point) => Ready(member, good, rest, nodes, goal, q);
    var size := (q: Point) => |q.left|;
    forall q
      ensures Moves(at, ready, size, goal, q)
    {
      if ready(q) {
        var k, v, a, b, t := FirstPoint(member, good, rest, nodes, goal, q);
        MovesOn(parse, member, good, nodes, goal, q, k, v, a, b, t);
        assert at(q) == goal || (ready(t) && size(t) < size(q) && at(t) == at(q));
      }
    }
    MovesToTheGoal(at, ready, size, goal, p);
  }

  lemma MembersAreRead(key: KeyParser, value: ValueParser, inner: G.Reading, good: Json -> bool, text: string, fields: map<string, Json>, rest: string, before: int, nodes: int)
    requires Names(key) && Takes(value, inner, good, nodes) && fields != map[] && GoodMembers(good, fields)
    requires G.Members(G.MemberOf(inner), text, fields, rest) && before + Spent(fields) <= nodes
    ensures ParseMembers(key, value, text, map[], before) == Parsed(Obj(fields), rest, before + Spent(fields))
  {
    var parse := (text, acc, before) => ParseMembers(key, value, text, acc, before);
    ParseMembersSteps(key, value, inner, good, nodes);
    assert map[] + fields == fields;
    MembersAreParsed(parse, G.MemberOf(inner), good, rest, nodes, Parsed(Obj(fields), rest, before + Spent(fields)), Point(text, fields, map[], before));
  }

  lemma FewerMembers(fields: map<string, Json>, k: string)
    requires k in fields
    ensures |fields - {k}| < |fields|
  {
    assert (fields - {k}).Keys == fields.Keys - {k};
  }

  lemma ReadableInside(v: Json)
    requires AllReadable(v)
    ensures v.Arr? ==> GoodElements(AllReadable, v.items)
    ensures v.Obj? ==> GoodMembers(AllReadable, v.fields)
  {
    if v.Arr? {
      forall i | 0 <= i < |v.items|
        ensures AllReadable(v.items[i])
      {
        assert Item(v, i) == v.items[i];
      }
    } else if v.Obj? {
      forall k | k in v.fields
        ensures AllReadable(v.fields[k])
      {
        assert Field(v, k) == v.fields[k];
      }
    }
  }

  // ----- one level

  /** No value begins with a blank or a closing bracket. */
  ghost predicate Opens(inner: G.Reading) {
    forall t, v, rest :: OpensAt(inner, t, v, rest)
  }

  ghost predicate OpensAt(inner: G.Reading, t: string, v: Json, rest: string) {
    inner(t, v, rest) ==> SkipSpace(t) != "" && SkipSpace(t)[0] != ']' && SkipSpace(t)[0] != '}'
  }

  lemma ItemsSkip(value: ValueParser, t: string, acc: seq<Json>, n: int)
    ensures ParseItems(value, SkipSpace(t), acc, n) == ParseItems(value, t, acc, n)
  {
    SkipsBlanks(t);
  }

  lemma KeySkips(lex: Lexer, t: string, acc: map<string, Json>)
    ensures ParseKey(lex, SkipSpace(t), acc) == ParseKey(lex, t, acc)
  {
    SkipsBlanks(t);
  }

  lemma MembersSkip(lex: Lexer, value: ValueParser, t: string, acc: map<string, Json>, n: int)
    ensures ParseMembers(KeyAt(lex), value, SkipSpace(t), acc, n) == ParseMembers(KeyAt(lex), value, t, acc, n)
  {
    KeySkips(lex, t, acc);
  }

  lemma EmptyIsRead(t: string, close: char, rest: string)
    requires G.Empty(t, close, rest) && (close == ']' || close == '}')
    ensures SkipSpace(t) == [close] + rest
  {
    var a :| G.Blanks(t, a) && a == [close] + rest;
    BlanksReach(t, a);
  }

  lemma ArrayIsRead(lex: Lexer, value: ValueParser, inner: G.Reading, good: Json -> bool, r: string, items: seq<Json>, rest: string, n: int, nodes: int)
    requires Takes(value, inner, good, nodes) && Opens(inner) && GoodElements(good, items) && n + CountItems(items) <= nodes
    requires G.Value(inner, r, Arr(items), rest)
    ensures ParseBody(lex, value, r, n) == Parsed(Arr(items), rest, n + CountItems(items))
  {
    var t := r[1..];
    if items == [] {
      EmptyIsRead(t, ']', rest);
      assert ("]" + rest)[1..] == rest;
    } else {
      var a, b := FirstElement(inner, t, items, rest);
      assert OpensAt(inner, t, items[0], a);
      ItemsSkip(value, t, [], n);
      ElementsAreRead(value, inner, good, t, items, rest, n, nodes);
    }
  }

  lemma NameOpens(t: string, k: string, rest: string)
    requires G.Name(t, k, rest)
    ensures SkipSpace(t) != "" && SkipSpace(t)[0] == '\"'
  {
    var a, b, c :| G.Blanks(t, a) && G.StringText(a, k, b) && G.Blanks(b, c) && c == ":" + rest;
    BlanksReach(t, a);
  }

  lemma ObjectIsRead(lex: Lexer, value: ValueParser, inner: G.Reading, good: Json -> bool, r: string, fields: map<string, Json>, rest: string, n: int, nodes: int)
    requires Lexes(lex) && Takes(value, inner, good, nodes) && GoodMembers(good, fields) && n + Spent(fields) <= nodes
    requires G.Value(inner, r, Obj(fields), rest)
    ensures ParseBody(lex, value, r, n) == Parsed(Obj(fields), rest, n + Spent(fields))
  {
    var t := r[1..];
    if fields == map[] {
      EmptyIsRead(t, '}', rest);
      NoMembers();
      assert ("}" + rest)[1..] == rest;
    } else {
      var member := G.MemberOf(inner);
      var k, a, b := FirstMember(member, t, fields, rest);
      assert G.Member(inner, t, k, fields[k], a);
      var after :| G.Name(t, k, after) && inner(after, fields[k], a);
      NameOpens(t, k, after);
      KeysAreNames(lex);
      MembersSkip(lex, value, t, map[], n);
      MembersAreRead(KeyAt(lex), value, inner, good, t, fields, rest, n, nodes);
    }
  }

  lemma ScalarIsRead(lex: Lexer, value: ValueParser, r: string, v: Json, rest: string, n: int)
    requires Lexes(lex) && G.Scalar(r, v, rest) && Breaks(rest) && (v.Int? ==> Readable(v.n))
    ensures ParseBody(lex, value, r, n) == Parsed(v, rest, n)
  {
    match v
    case Null => WordIsRead(lex, value, "null", v, r, rest, n);
    case Bool(b) => WordIsRead(lex, value, if b then "true" else "false", v, r, rest, n);
    case Int(i) =>
      IntegerOpens(r, i, rest);
      NumberBody(lex, value, r, i, rest, n);
    case Str(s) => TextBody(lex, value, r, s, rest, n);
  }

  lemma WordIsRead(lex: Lexer, value: ValueParser, word: string, v: Json, r: string, rest: string, n: int)
    requires (v == Null && word == "null") || (v == Bool(true) && word == "true") || (v == Bool(false) && word == "false")
    requires r == word + rest
    ensures ParseBody(lex, value, r, n) == Parsed(v, rest, n)
  {
    assert StartsWith(r, word);
    assert r[|word|..] == rest;
  }

  lemma IntegerOpens(r: string, i: int, rest: string)
    requires G.IntegerText(r, i, rest)
    ensures r != "" && (r[0] == '-' || IsDigit(r[0]))
  {
    var t :| G.Denotes(t, i) && r == t + rest;
    IntTextStart(i);
  }

  lemma ValueOpens(inner: G.Reading, r: string, v: Json, rest: string)
    requires G.Value(inner, r, v, rest)
    ensures r != "" && !IsSpace(r[0]) && r[0] != ']' && r[0] != '}'
  {
    if v.Int? {
      IntegerOpens(r, v.n, rest);
    }
  }

  /** Everything directly inside is good. */
  ghost predicate GoodInside(good: Json -> bool, v: Json) {
    && (v.Int? ==> Readable(v.n))
    && (v.Arr? ==> GoodElements(good, v.items))
    && (v.Obj? ==> GoodMembers(good, v.fields))
  }

  lemma ValueIsRead(lex: Lexer, value: ValueParser, inner: G.Reading, good: Json -> bool, r: string, v: Json, rest: string, n: int, nodes: int)
    requires Lexes(lex) && Takes(value, inner, good, nodes) && Opens(inner) && GoodInside(good, v)
    requires G.Value(inner, r, v, rest) && Breaks(rest) && n + Count(v) - 1 <= nodes
    ensures ParseBody(lex, value, r, n) == Parsed(v, rest, n + Count(v) - 1)
  {
    if v.Arr? {
      ArrayIsRead(lex, value, inner, good, r, v.items, rest, n, nodes);
    } else if v.Obj? {
      ObjectIsRead(lex, value, inner, good, r, v.fields, rest, n, nodes);
    } else {
      ScalarIsRead(lex, value, r, v, rest, n);
    }
  }

  // ----- all levels

  lemma DerivedOpens(h: nat)
    ensures Opens(G.Within(h))
  {
    forall t, v, rest
      ensures OpensAt(G.Within(h), t, v, rest)
    {
      if G.Derives(h, t, v, rest) {
        var a :| G.Blanks(t, a) && G.Value(G.Within(h - 1), a, v, rest);
        ValueOpens(G.Within(h - 1), a, v, rest);
        BlanksReach(t, a);
      }
    }
  }

  lemma LevelTakes(lex: Lexer, lim: Limits, value: int -> ValueParser, depth: int, inner: G.Reading, t: string, a: string, v: Json, rest: string, before: int)
    requires Lexes(lex) && Descends(lex, lim, value) && depth <= lim.depth
    requires Takes(value(depth + 1), inner, AllReadable, lim.nodes) && Opens(inner)
    requires G.Blanks(t, a) && G.Value(inner, a, v, rest) && AllReadable(v) && Breaks(rest) && before + Count(v) <= lim.nodes
    ensures value(depth)(t, before) == Parsed(v, rest, before + Count(v))
    ensures value(depth)(SkipSpace(t), before) == Parsed(v, rest, before + Count(v))
  {
    ValueOpens(inner, a, v, rest);
    BlanksReach(t, a);
    SkipsBlanks(t);
    ReadableInside(v);
    assert OneLevel(lex, lim, value, depth, t, before);
    assert OneLevel(lex, lim, value, depth, SkipSpace(t), before);
    ValueIsRead(lex, value(depth + 1), inner, AllReadable, a, v, rest, before + 1, lim.nodes);
  }

  lemma LevelTakesAt(lex: Lexer, lim: Limits, value: int -> ValueParser, depth: int, h: nat, t: string, v: Json, rest: string, before: int)
    requires Lexes(lex) && Descends(lex, lim, value) && depth <= lim.depth && h > 0
    requires Takes(value(depth + 1), G.Within(h - 1), AllReadable, lim.nodes) && Opens(G.Within(h - 1))
    ensures TakesAt(value(depth), G.Within(h), AllReadable, lim.nodes, t, v, rest, before)
  {
    if G.Derives(h, t, v, rest) && AllReadable(v) && Breaks(rest) && before + Count(v) <= lim.nodes {
      var a :| G.Blanks(t, a) && G.Value(G.Within(h - 1), a, v, rest);
      LevelTakes(lex, lim, value, depth, G.Within(h - 1), t, a, v, rest, before);
    }
  }

  lemma {:induction false} LevelsTake(lex: Lexer, lim: Limits, value: int -> ValueParser, depth: int, h: nat)
    requires Lexes(lex) && Descends(lex, lim, value) && depth + h <= lim.depth + 1
    ensures Takes(value(depth), G.Within(h), AllReadable, lim.nodes)
    decreases h
  {
    if h > 0 {
      LevelsTake(lex, lim, value, depth + 1, h - 1);
      DerivedOpens(h - 1);
    }
    forall t, v, rest, before
      ensures TakesAt(value(depth), G.Within(h), AllReadable, lim.nodes, t, v, rest, before)
    {
      if h > 0 {
        LevelTakesAt(lex, lim, value, depth, h, t, v, rest, before);
      }
    }
  }

  // ----- everything that is read is derived by the grammar

  ghost predicate Gives(value: ValueParser, inner: G.Reading) {
    forall t, n :: GivesAt(value, inner, t, n)
  }

  ghost predicate GivesAt(value: ValueParser, inner: G.Reading, t: string, n: int) {
    && (value(t, n).Parsed? ==> inner(t, value(t, n).v, value(t, n).rest))
    && (value(SkipSpace(t), n).Parsed? ==> inner(t, value(SkipSpace(t), n).v, value(SkipSpace(t), n).rest))
  }

  lemma LastGiven(inner: G.Reading, text: string, v: Json, a: string, b: string)
    requires inner(text, v, a) && G.Blanks(a, b) && b != "" && b[0] == ']'
    ensures G.Elements(inner, text, [v], b[1..])
  {
    assert b == "]" + b[1..];
  }

  lemma MoreGiven(inner: G.Reading, text: string, v: Json, a: string, b: string, items: seq<Json>, rest: string)
    requires inner(text, v, a) && G.Blanks(a, b) && b != "" && b[0] == ','
    requires items != [] && G.Elements(inner, b[1..], items, rest)
    ensures G.Elements(inner, text, [v] + items, rest)
  {
    assert ([v] + items)[1..] == items;
  }

  lemma PrependGiven(inner: G.Reading, text: string, v: Json, a: string, b: string, acc: seq<Json>, more: seq<Json>, rest: string) returns (items: seq<Json>)
    requires inner(text, v, a) && G.Blanks(a, b) && b != "" && b[0] == ','
    requires more != [] && G.Elements(inner, b[1..], more, rest)
    ensures items != [] && G.Elements(inner, text, items, rest) && acc + [v] + more == acc + items
  {
    items := [v] + more;
    MoreGiven(inner, text, v, a, b, more, rest);
  }

  lemma {:induction false} ItemsGiven(value: ValueParser, inner: G.Reading, text: string, acc: seq<Json>, before: int) returns (items: seq<Json>)
    requires Gives(value, inner) && ParseItems(value, text, acc, before).Parsed?
    ensures var p := ParseItems(value, text, acc, before);
            p.v == Arr(acc + items) && items != [] && G.Elements(inner, text, items, p.rest)
    decreases |text|
  {
    assert GivesAt(value, inner, text, before);
    var item := value(SkipSpace(text), before);
    var v, a, b := item.v, item.rest, SkipSpace(item.rest);
    SkipsBlanks(a);
    if b[0] == ']' {
      items := [v];
      LastGiven(inner, text, v, a, b);
    } else {
      var more := ItemsGiven(value, inner, b[1..], acc + [v], item.nodes);
      items := PrependGiven(inner, text, v, a, b, acc, more, ParseItems(value, b[1..], acc + [v], item.nodes).rest);
    }
  }

  lemma LastMemberGiven(member: G.MemberReading, text: string, k: string, v: Json, a: string, b: string)
    requires member(text, k, v, a) && G.Blanks(a, b) && b != "" && b[0] == '}'
    ensures map[k := v] != map[] && G.Members(member, text, map[k := v], b[1..])
  {
    var one := map[k := v];
    assert k in one && one[k] == v && one - {k} == map[];
    assert b == "}" + b[1..];
  }

  lemma MoreMembersGiven(member: G.MemberReading, text: string, k: string, v: Json, a: string, b: string, fields: map<string, Json>, rest: string)
    requires member(text, k, v, a) && G.Blanks(a, b) && b != "" && b[0] == ','
    requires fields != map[] && k !in fields && G.Members(member, b[1..], fields, rest)
    ensures fields[k := v] != map[] && G.Members(member, text, fields[k := v], rest)
  {
    var all := fields[k := v];
    assert all - {k} == fields;
    assert k in all && all[k] == v;
  }

  lemma AddFirst(acc: map<string, Json>, k: string, v: Json, more: map<string, Json>)
    requires k !in acc && acc[k := v].Keys !! more.Keys
    ensures k !in more && acc.Keys !! more[k := v].Keys
    ensures acc[k := v] + more == acc + more[k := v]
  {}

  lemma OneMemberGiven(member: G.MemberReading, text: string, k: string, v: Json, a: string, b: string, acc: map<string, Json>) returns (fields: map<string, Json>)
    requires member(text, k, v, a) && G.Blanks(a, b) && b != "" && b[0] == '}' && k !in acc
    ensures fields != map[] && acc.Keys !! fields.Keys && G.Members(member, text, fields, b[1..]) && acc[k := v] == acc + fields
  {
    fields := map[k := v];
    LastMemberGiven(member, text, k, v, a, b);
  }

  lemma PrependMember(member: G.MemberReading, text: string, k: string, v: Json, a: string, b: string, acc: map<string, Json>, more: map<string, Json>, rest: string) returns (fields: map<string, Json>)
    requires member(text, k, v, a) && G.Blanks(a, b) && b != "" && b[0] == ',' && k !in acc
    requires more != map[] && acc[k := v].Keys !! more.Keys && G.Members(member, b[1..], more, rest)
    ensures fields != map[] && acc.Keys !! fields.Keys && G.Members(member, text, fields, rest) && acc[k := v] + more == acc + fields
  {
    fields := more[k := v];
    AddFirst(acc, k, v, more);
    MoreMembersGiven(member, text, k, v, a, b, more, rest);
  }

  lemma MemberGiven(key: KeyParser, value: ValueParser, inner: G.Reading, text: string, acc: map<string, Json>, before: int, k: string, after: string, p: Parse)
    requires Names(key) && Gives(value, inner) && key(text, acc) == Ok((k, after)) && p == value(after, before) && p.Parsed?
    ensures k !in acc && G.MemberOf(inner)(text, k, p.v, p.rest) && G.Blanks(p.rest, SkipSpace(p.rest))
  {
    assert NamesAt(key, text, k, after, acc);
    assert GivesAt(value, inner, after, before);
    assert G.Member(inner, text, k, p.v, p.rest);
    SkipsBlanks(p.rest);
  }

  lemma {:induction false} MembersGiven(key: KeyParser, value: ValueParser, inner: G.Reading, member: G.MemberReading, text: string, acc: map<string, Json>, before: int) returns (fields: map<string, Json>)
    requires Names(key) && Gives(value, inner) && member == G.MemberOf(inner) && ParseMembers(key, value, text, acc, before).Parsed?
    ensures fields != map[] && acc.Keys !! fields.Keys
    ensures var p := ParseMembers(key, value, text, acc, before);
            p.v == Obj(acc + fields) && G.Members(member, text, fields, p.rest)
    decreases |text|
  {
    var (k, after) := key(text, acc).value;
    var p := value(after, before);
    var v, a, b := p.v, p.rest, SkipSpace(p.rest);
    MemberGiven(key, value, inner, text, acc, before, k, after, p);
    if b[0] == '}' {
      fields := OneMemberGiven(member, text, k, v, a, b, acc);
    } else {
      var more := MembersGiven(key, value, inner, member, b[1..], acc[k := v], p.nodes);
      fields := PrependMember(member, text, k, v, a, b, acc, more, ParseMembers(key, value, b[1..], acc[k := v], p.nodes).rest);
    }
  }

  lemma EmptyGiven(t: string, close: char)
    requires SkipSpace(t) != "" && SkipSpace(t)[0] == close
    ensures G.Empty(t, close, SkipSpace(t)[1..])
  {
    SkipsBlanks(t);
    assert SkipSpace(t) == [close] + SkipSpace(t)[1..];
  }

  lemma ArrayGiven(lex: Lexer, value: ValueParser, inner: G.Reading, r: string, n: int)
    requires Gives(value, inner) && r != "" && r[0] == '[' && ParseBody(lex, value, r, n).Parsed?
    ensures var p := ParseBody(lex, value, r, n); G.Value(inner, r, p.v, p.rest)
  {
    var t := r[1..];
    if SkipSpace(t) != "" && SkipSpace(t)[0] == ']' {
      EmptyGiven(t, ']');
    } else {
      ItemsSkip(value, t, [], n);
      var items := ItemsGiven(value, inner, t, [], n);
      assert [] + items == items;
    }
  }

  lemma ObjectGiven(lex: Lexer, value: ValueParser, inner: G.Reading, r: string, n: int)
    requires Lexes(lex) && Gives(value, inner) && r != "" && r[0] == '{' && ParseBody(lex, value, r, n).Parsed?
    ensures var p := ParseBody(lex, value, r, n); G.Value(inner, r, p.v, p.rest)
  {
    var t := r[1..];
    if SkipSpace(t) != "" && SkipSpace(t)[0] == '}' {
      EmptyGiven(t, '}');
    } else {
      KeysAreNames(lex);
      MembersSkip(lex, value, t, map[], n);
      var fields := MembersGiven(KeyAt(lex), value, inner, G.MemberOf(inner), t, map[], n);
      assert map[] + fields == fields;
    }
  }

  lemma WordGiven(r: string, word: string)
    requires StartsWith(r, word)
    ensures r == word + r[|word|..]
  {}

  lemma ScalarGiven(lex: Lexer, value: ValueParser, r: string, n: int)
    requires Lexes(lex) && r != "" && r[0] != '[' && r[0] != '{' && ParseBody(lex, value, r, n).Parsed?
    ensures var p := ParseBody(lex, value, r, n); G.Scalar(r, p.v, p.rest)
  {
    if r[0] == '\"' {
    } else if StartsWith(r, "true") {
      WordGiven(r, "true");
    } else if StartsWith(r, "false") {
      WordGiven(r, "false");
    } else if StartsWith(r, "null") {
      WordGiven(r, "null");
    }
  }

  lemma BodyGiven(lex: Lexer, value: ValueParser, inner: G.Reading, r: string, n: int)
    requires Lexes(lex) && Gives(value, inner) && ParseBody(lex, value, r, n).Parsed?
    ensures var p := ParseBody(lex, value, r, n); G.Value(inner, r, p.v, p.rest)
  {
    if r[0] == '[' {
      ArrayGiven(lex, value, inner, r, n);
    } else if r[0] == '{' {
      ObjectGiven(lex, value, inner, r, n);
    } else {
      ScalarGiven(lex, value, r, n);
    }
  }

  lemma LevelDerives(lex: Lexer, lim: Limits, value: int -> ValueParser, depth: int, inner: G.Reading, h: nat, t: string, u: string, n: int)
    requires Lexes(lex) && OneLevel(lex, lim, value, depth, u, n) && SkipSpace(u) == SkipSpace(t) && value(depth)(u, n).Parsed?
    requires h > 0 && inner == G.Within(h - 1) && Gives(value(depth + 1), inner)
    ensures G.Derives(h, t, value(depth)(u, n).v, value(depth)(u, n).rest)
  {
    SkipsBlanks(t);
    BodyGiven(lex, value(depth + 1), inner, SkipSpace(t), n + 1);
  }

  lemma LevelGives(lex: Lexer, lim: Limits, value: int -> ValueParser, depth: int, h: nat, t: string, n: int)
    requires Lexes(lex) && OneLevel(lex, lim, value, depth, t, n) && OneLevel(lex, lim, value, depth, SkipSpace(t), n)
    requires depth <= lim.depth ==> h > 0 && Gives(value(depth + 1), G.Within(h - 1))
    ensures GivesAt(value(depth), G.Within(h), t, n)
  {
    SkipsBlanks(t);
    if value(depth)(t, n).Parsed? {
      LevelDerives(lex, lim, value, depth, G.Within(h - 1), h, t, t, n);
    }
    if value(depth)(SkipSpace(t), n).Parsed? {
      LevelDerives(lex, lim, value, depth, G.Within(h - 1), h, t, SkipSpace(t), n);
    }
  }

  lemma {:induction false} LevelsGive(lex: Lexer, lim: Limits, value: int -> ValueParser, depth: int)
    requires Lexes(lex) && Descends(lex, lim, value)
    ensures Gives(value(depth), G.Within(Levels(lim, depth)))
    decreases Levels(lim, depth)
  {
    if depth <= lim.depth {
      LevelsGive(lex, lim, value, depth + 1);
    }
    forall t, n
      ensures GivesAt(value(depth), G.Within(Levels(lim, depth)), t, n)
    {
      assert OneLevel(lex, lim, value, depth, t, n) && OneLevel(lex, lim, value, depth, SkipSpace(t), n);
      LevelGives(lex, lim, value, depth, Levels(lim, depth), t, n);
    }
  }

  // ----- the theorem

  lemma GivenWhole(value: ValueParser, h: nat, text: string)
    requires Gives(value, G.Within(h)) && value(text, 0).Parsed? && SkipSpace(value(text, 0).rest) == ""
    ensures G.Document(text, value(text, 0).v)
  {
    var p := value(text, 0);
    assert GivesAt(value, G.Within(h), text, 0);
    SkipsBlanks(p.rest);
    assert G.Derives(h, text, p.v, p.rest) && G.Blanks(p.rest, "");
  }

  lemma AcceptedIsDocument(lex: Lexer, text: string, lim: Limits)
    requires Lexes(lex) && ParseAll(lex, text, lim).Ok?
    ensures G.Document(text, ParseAll(lex, text, lim).value)
  {
    ParsersDescend(lex, lim);
    LevelsGive(lex, lim, Parsers(lex, lim), 0);
    GivenWhole(Parsers(lex, lim)(0), Levels(lim, 0), text);
  }

  lemma TakenWhole(value: ValueParser, inner: G.Reading, text: string, v: Json, b: string, nodes: int)
    requires Takes(value, inner, AllReadable, nodes) && inner(text, v, b) && G.Blanks(b, "")
    requires AllReadable(v) && Count(v) <= nodes
    ensures value(text, 0) == Parsed(v, b, Count(v)) && SkipSpace(b) == ""
  {
    BlanksBreak(b, "");
    BlanksAreSkipped(b, "");
    assert TakesAt(value, inner, AllReadable, nodes, text, v, b, 0);
  }

  lemma ReadsToTheEnd(lex: Lexer, text: string, v: Json, b: string, count: nat, lim: Limits)
    requires Parsers(lex, lim)(0)(text, 0) == Parsed(v, b, count) && SkipSpace(b) == ""
    ensures ParseAll(lex, text, lim) == Ok(v)
  {}

  lemma DerivedIsRead(lex: Lexer, text: string, v: Json, h: nat, inner: G.Reading, b: string, lim: Limits)
    requires Lexes(lex) && inner == G.Within(h) && inner(text, v, b) && G.Blanks(b, "") && AllReadable(v)
    requires h <= lim.depth + 1 && Count(v) <= lim.nodes
    ensures ParseAll(lex, text, lim) == Ok(v)
  {
    ParsersDescend(lex, lim);
    LevelsTake(lex, lim, Parsers(lex, lim), 0, h);
    TakenWhole(Parsers(lex, lim)(0), inner, text, v, b, lim.nodes);
    ReadsToTheEnd(lex, text, v, b, Count(v), lim);
  }

  lemma DocumentDerives(text: string, v: Json) returns (h: nat, inner: G.Reading, b: string)
    requires G.Document(text, v)
    ensures inner == G.Within(h) && inner(text, v, b) && G.Blanks(b, "")
  {
    h, b :| G.Derives(h, text, v, b) && G.Blanks(b, "");
    inner := G.Within(h);
  }

  lemma DocumentIsAccepted(lex: Lexer, text: string, v: Json, lim: Limits)
    requires Lexes(lex) && NumbersReadable(lex) && G.Document(text, v) && AllReadable(v) && Admits(lim, v)
    ensures ParseAll(lex, text, lim) == Ok(v)
  {
    var h, inner, b := DocumentDerives(text, v);
    var wide := Limits(if h < lim.depth then lim.depth else h, lim.nodes);
    DerivedIsRead(lex, text, v, h, inner, b, wide);
    AllAgree(lex, lim, wide, text, v);
  }

  lemma AcceptsAny(lex: Lexer, text: string, v: Json, lim: Limits)
    requires Lexes(lex) && NumbersReadable(lex)
    ensures ParseAll(lex, text, lim) == Ok(v) <==> G.Document(text, v) && AllReadable(v) && Admits(lim, v)
  {
    if ParseAll(lex, text, lim) == Ok(v) {
      AcceptedIsDocument(lex, text, lim);
      AcceptedIsGood(lex, lim, text);
    }
    if G.Document(text, v) && AllReadable(v) && Admits(lim, v) {
      DocumentIsAccepted(lex, text, v, lim);
    }
  }

  /**
   Acceptance is exact: under any limits a text is read as a value if and only if the
   grammar derives that value from it and the value fits, its integers readable.
   */
  lemma {:induction false} AcceptsExactly(text: string, v: Json, lim: Limits)
    ensures ParseAll(LEXER, text, lim) == Ok(v) <==> G.Document(text, v) && AllReadable(v) && Admits(lim, v)
  {
    LexerLexes();
    LexerNumbersReadable();
    AcceptsAny(LEXER, text, v, lim);
  }

  /** With the source's limits: a document of at most 262144 bytes whose value is storable but for its size. */
  lemma {:induction false} AcceptedExactly(text: string, v: Json)
    ensures ParseText(text) == Ok(v) <==>
              && Utf8Length(text) <= 262144 && G.Document(text, v)
              && Shallow(v, 5) && Count(v) <= 16384 && AllReadable(v)
  {
    AcceptsExactly(text, v, LIMITS);
  }
}
