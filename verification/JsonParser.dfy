/**
 The bounded recursive-descent parser, as a function on the remaining text. Depth
 and node budgets are spent before a value is looked at; object keys are strings,
 not values, and must not repeat.
 */
module JsonParser {
  import opened Wrappers
  import opened JsonText
  import opened JsonValues

  const MAX_BYTES := 262144
  const MAX_DEPTH := 5
  const MAX_NODES := 16384

  datatype Limits = Limits(depth: int, nodes: int)

  datatype Error = InputLimit | StructureLimit | DuplicateKey | ShapeInvalid

  datatype Parse = Parsed(v: Json, rest: string, nodes: int) | Failed(error: Error)

  /** A scanner reads one token and leaves a shorter text. */
  type Scanner<T> = f: string -> Option<(T, string)> | forall r :: f(r).Some? ==> |f(r).value.1| < |r|
    witness r => None

  /** The two scanners the parser is built on: the string scanner, started after the opening quote, and the integer token. */
  datatype Lexer = Lexer(text: Scanner<string>, number: Scanner<int>)

  const LEXER := Lexer(r => ScanString(r, ""), r => ScanInt(r))

  predicate IsSpace(c: char) { c == ' ' || c == '\t' || c == '\r' || c == '\n' }

  function SkipSpace(r: string): (t: string)
    ensures |t| <= |r|
  {
    if r != "" && IsSpace(r[0]) then SkipSpace(r[1..]) else r
  }

  predicate StartsWith(r: string, word: string) {
    |word| <= |r| && forall i :: 0 <= i < |word| ==> r[i] == word[i]
  }

  function ParseLiteral(lex: Lexer, r: string, nodes: int): (p: Parse)
    ensures p.Parsed? ==> |p.rest| < |r| && p.nodes == nodes
  {
    if StartsWith(r, "true") then Parsed(Bool(true), r[4..], nodes)
    else if StartsWith(r, "false") then Parsed(Bool(false), r[5..], nodes)
    else if StartsWith(r, "null") then Parsed(Null, r[4..], nodes)
    else
      var x := lex.number(r);
      if x.Some? then Parsed(Int(x.value.0), x.value.1, nodes) else Failed(ShapeInvalid)
  }

  /** A parser of one value, given the text and the nodes spent so far. */
  type ValueParser = f: (string, int) -> Parse | forall t, n :: f(t, n).Parsed? ==> |f(t, n).rest| < |t|
    witness (t, n) => Failed(ShapeInvalid)

  /** The rest of an array, whose items so far are `acc`. */
  function ParseItems(value: ValueParser, text: string, acc: seq<Json>, nodes: int): (p: Parse)
    ensures p.Parsed? ==> |p.rest| < |text|
    decreases |text|
  {
    var item := value(SkipSpace(text), nodes);
    if item.Failed? then item
    else
      var t := SkipSpace(item.rest);
      if t != "" && t[0] == ']' then Parsed(Arr(acc + [item.v]), t[1..], item.nodes)
      else if t != "" && t[0] == ',' then ParseItems(value, t[1..], acc + [item.v], item.nodes)
      else Failed(ShapeInvalid)
  }

  /** One member up to its colon: the key, if it is new, and the text after the colon. */
  function ParseKey(lex: Lexer, text: string, acc: map<string, Json>): (x: Result<(string, string), Error>)
    ensures x.Ok? ==> |x.value.1| < |text| && x.value.0 !in acc
  {
    var r := SkipSpace(text);
    if r == "" || r[0] != '\"' then Err(ShapeInvalid)
    else
      var key := lex.text(r[1..]);
      if key.None? then Err(ShapeInvalid)
      else if key.value.0 in acc then Err(DuplicateKey)
      else
        var t := SkipSpace(key.value.1);
        if t == "" || t[0] != ':' then Err(ShapeInvalid) else Ok((key.value.0, t[1..]))
  }

  /** A parser of a member's key and colon, given the members so far. */
  type KeyParser = f: (string, map<string, Json>) -> Result<(string, string), Error>
    | forall t, acc :: f(t, acc).Ok? ==> |f(t, acc).value.1| < |t|
    witness (t, acc) => Err(ShapeInvalid)

  function KeyAt(lex: Lexer): KeyParser {
    (t, acc) => ParseKey(lex, t, acc)
  }

  /** The rest of an object, whose members so far are `acc`. */
  function ParseMembers(key: KeyParser, value: ValueParser, text: string, acc: map<string, Json>, nodes: int): (p: Parse)
    ensures p.Parsed? ==> |p.rest| < |text|
    decreases |text|
  {
    var head := key(text, acc);
    if head.Err? then Failed(head.error)
    else
      var member := value(head.value.1, nodes);
      if member.Failed? then member
      else
        var fields := acc[head.value.0 := member.v];
        var t := SkipSpace(member.rest);
        if t != "" && t[0] == '}' then Parsed(Obj(fields), t[1..], member.nodes)
        else if t != "" && t[0] == ',' then ParseMembers(key, value, t[1..], fields, member.nodes)
        else Failed(ShapeInvalid)
  }

  /** What follows an opening bracket or brace, or any other first character. */
  function ParseBody(lex: Lexer, value: ValueParser, r: string, nodes: int): (p: Parse)
    ensures p.Parsed? ==> |p.rest| < |r|
  {
    if r == "" then Failed(ShapeInvalid)
    else if r[0] == '\"' then
      var x := lex.text(r[1..]);
      if x.Some? then Parsed(Str(x.value.0), x.value.1, nodes) else Failed(ShapeInvalid)
    else if r[0] == '[' then
      var t := SkipSpace(r[1..]);
      if t != "" && t[0] == ']' then Parsed(Arr([]), t[1..], nodes) else ParseItems(value, t, [], nodes)
    else if r[0] == '{' then
      var t := SkipSpace(r[1..]);
      if t != "" && t[0] == '}' then Parsed(Obj(map[]), t[1..], nodes) else ParseMembers(KeyAt(lex), value, t, map[], nodes)
    else ParseLiteral(lex, r, nodes)
  }

  /** One value at the given depth: the budgets are spent before the text is looked at. */
  function ParseValue(lex: Lexer, lim: Limits, depth: int, text: string, before: int): (p: Parse)
    ensures p.Parsed? ==> |p.rest| < |text|
    decreases Levels(lim, depth), 0
  {
    if depth > lim.depth || before + 1 > lim.nodes then Failed(StructureLimit)
    else ParseBody(lex, ValueAt(lex, lim, depth + 1), SkipSpace(text), before + 1)
  }

  function ValueAt(lex: Lexer, lim: Limits, depth: int): ValueParser
    decreases Levels(lim, depth), 1
  {
    (t, n) => ParseValue(lex, lim, depth, t, n)
  }

  /** Levels of nesting still allowed. */
  function Levels(lim: Limits, depth: int): nat {
    if depth > lim.depth then 0 else lim.depth - depth + 1
  }

  /** The parsers of the levels. */
  function Parsers(lex: Lexer, lim: Limits): int -> ValueParser {
    (depth: int) => ValueAt(lex, lim, depth)
  }

  /** How each level rests on the next. */
  ghost predicate Descends(lex: Lexer, lim: Limits, value: int -> ValueParser) {
    forall depth, t, n :: OneLevel(lex, lim, value, depth, t, n)
  }

  ghost predicate OneLevel(lex: Lexer, lim: Limits, value: int -> ValueParser, depth: int, t: string, n: int) {
    value(depth)(t, n)
    == if depth > lim.depth || n + 1 > lim.nodes then Failed(StructureLimit)
       else ParseBody(lex, value(depth + 1), SkipSpace(t), n + 1)
  }

  lemma ValueUnfolds(lex: Lexer, lim: Limits, depth: int, t: string, n: int)
    ensures ParseValue(lex, lim, depth, t, n)
            == if depth > lim.depth || n + 1 > lim.nodes then Failed(StructureLimit)
               else ParseBody(lex, ValueAt(lex, lim, depth + 1), SkipSpace(t), n + 1)
  {}

  lemma ParsersDescend(lex: Lexer, lim: Limits)
    ensures Descends(lex, lim, Parsers(lex, lim))
  {
    forall depth, t, n
      ensures OneLevel(lex, lim, Parsers(lex, lim), depth, t, n)
    {
      ValueUnfolds(lex, lim, depth, t, n);
    }
  }

  function ParseAll(lex: Lexer, text: string, lim: Limits): Result<Json, Error> {
    var p := ParseValue(lex, lim, 0, text, 0);
    if p.Failed? then Err(p.error)
    else if SkipSpace(p.rest) != "" then Err(ShapeInvalid)
    else Ok(p.v)
  }

  /** Length of the text in UTF-8. */
  function Utf8Length(s: string): nat {
    if s == "" then 0
    else
      var n := s[0] as int;
      (if n < 0x80 then 1 else if n < 0x800 then 2 else if n < 0x1_0000 then 3 else 4) + Utf8Length(s[1..])
  }

  const LIMITS := Limits(MAX_DEPTH, MAX_NODES)

  /** The whole parser on decoded input. */
  function ParseText(text: string): Result<Json, Error> {
    if Utf8Length(text) > MAX_BYTES then Err(InputLimit) else ParseAll(LEXER, text, LIMITS)
  }
}
