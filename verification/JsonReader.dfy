/**
 The parser as the source runs it: one object whose index and node counter move as
 it descends. Exceptions are error results; after one the object is not used again.
 */
module JsonReader {
  import opened Wrappers
  import opened JsonText
  import opened JsonValues
  import opened JsonParser

  /** A scanner leaves a suffix of what it was given, so its position is an index. */
  ghost predicate Suffixes(lex: Lexer) {
    && (forall r :: lex.text(r).Some? ==> lex.text(r).value.1 == r[|r| - |lex.text(r).value.1|..])
    && (forall r :: lex.number(r).Some? ==> lex.number(r).value.1 == r[|r| - |lex.number(r).value.1|..])
  }

  lemma {:induction false} ScanStringLeavesSuffix(r: string, acc: string)
    requires ScanString(r, acc).Some?
    ensures var rest := ScanString(r, acc).value.1; rest == r[|r| - |rest|..]
    decreases |r|
  {
    var x := ScanChar(r);
    if x.Next? {
      ScanStringLeavesSuffix(x.rest, acc + [x.c]);
    }
  }

  lemma LexerLeavesSuffixes()
    ensures Suffixes(LEXER)
  {
    forall r | LEXER.text(r).Some?
      ensures LEXER.text(r).value.1 == r[|r| - |LEXER.text(r).value.1|..]
    {
      ScanStringLeavesSuffix(r, "");
    }
  }

  /** The members so far with one more. */
  function ParseMember(key: KeyParser, value: ValueParser, text: string, acc: map<string, Json>, nodes: int): (p: Parse)
    ensures p.Parsed? ==> p.v.Obj? && |p.rest| < |text|
  {
    var head := key(text, acc);
    if head.Err? then Failed(head.error)
    else
      var member := value(head.value.1, nodes);
      if member.Failed? then member else Parsed(Obj(acc[head.value.0 := member.v]), member.rest, member.nodes)
  }

  lemma MemberFirst(key: KeyParser, value: ValueParser, text: string, acc: map<string, Json>, nodes: int)
    ensures var m := ParseMember(key, value, text, acc, nodes);
            ParseMembers(key, value, text, acc, nodes)
            == if m.Failed? then m
               else
                 var t := SkipSpace(m.rest);
                 if t != "" && t[0] == '}' then Parsed(m.v, t[1..], m.nodes)
                 else if t != "" && t[0] == ',' then ParseMembers(key, value, t[1..], m.v.fields, m.nodes)
                 else Failed(ShapeInvalid)
  {}

  class BoundedJson {
    const lex: Lexer
    const lim: Limits
    /** The specification of each level. */
    ghost const value: int -> ValueParser
    const s: string
    var i: nat
    var nodes: nat

    constructor (lex: Lexer, lim: Limits, s: string)
      requires Suffixes(lex)
      ensures this.lex == lex && this.lim == lim && this.s == s && i == 0 && nodes == 0
      ensures Sound() && value == Parsers(lex, lim)
    {
      this.lex, this.lim, this.s, value := lex, lim, s, Parsers(lex, lim);
      ParsersDescend(lex, lim);
      i, nodes := 0, 0;
    }

    ghost predicate Sound() {
      Suffixes(lex) && Descends(lex, lim, value)
    }

    /** The text still to be read. */
    function Rest(): string
      requires i <= |s|
      reads this
    {
      s[i..]
    }

    predicate At(c: char)
      reads this
    {
      i < |s| && s[i] == c
    }

    method Space()
      requires i <= |s|
      modifies this`i
      ensures i <= |s| && Rest() == SkipSpace(old(Rest()))
    {
      while i < |s| && IsSpace(s[i])
        invariant i <= |s| && SkipSpace(Rest()) == SkipSpace(old(Rest()))
      {
        assert Rest()[1..] == s[i + 1..];
        i := i + 1;
      }
    }

    /** Reads a string literal. */
    method String() returns (x: Option<string>)
      requires i <= |s| && Sound()
      modifies this`i
      ensures i <= |s|
      ensures old(Rest()) == "" || old(Rest())[0] != '\"' ==> x.None?
      ensures old(Rest()) != "" && old(Rest())[0] == '\"' ==>
                var y := lex.text(old(Rest())[1..]);
                if y.Some? then x == Some(y.value.0) && Rest() == y.value.1 else x.None?
    {
      if !At('\"') {
        return None;
      }
      ghost var text := Rest();
      assert text[1..] == s[i + 1..];
      var y := lex.text(s[i + 1..]);
      if y.None? {
        return None;
      }
      i := |s| - |y.value.1|;
      x := Some(y.value.0);
    }

    /** A literal word or an integer. */
    method Literal() returns (r: Result<Json, Error>)
      requires i <= |s| && Sound()
      modifies this`i
      ensures Outcome(r, ParseLiteral(lex, old(Rest()), nodes))
    {
      ghost var text := Rest();
      var words := [("true", Bool(true)), ("false", Bool(false)), ("null", Null)];
      assert words[0] == ("true", Bool(true)) && words[1] == ("false", Bool(false)) && words[2] == ("null", Null);
      var w := 0;
      while w < |words|
        invariant 0 <= w <= |words| && i == old(i)
        invariant forall j :: 0 <= j < w ==> !StartsWith(text, words[j].0)
      {
        if StartsWith(s[i..], words[w].0) {
          assert text[|words[w].0|..] == s[i + |words[w].0|..];
          i := i + |words[w].0|;
          assert w == 0 || w == 1 || w == 2;
          return Ok(words[w].1);
        }
        w := w + 1;
      }
      var x := lex.number(s[i..]);
      if x.None? {
        return Err(ShapeInvalid);
      }
      i := |s| - |x.value.1|;
      r := Ok(Int(x.value.0));
    }

    /** How a result and the new position stand to what the specification says. */
    predicate Outcome(r: Result<Json, Error>, p: Parse)
      reads this
    {
      match p
      case Parsed(v, rest, n) => r == Ok(v) && i <= |s| && Rest() == rest && nodes == n
      case Failed(e) => r == Err(e)
    }

    /** The token after a part: whether it closes the container. Anything but the close or a comma is an error. */
    method Token(end: char) returns (x: Result<bool, Error>)
      requires i <= |s|
      modifies this`i
      ensures var t := SkipSpace(old(Rest()));
              if t != "" && t[0] == end then x == Ok(true) && i <= |s| && Rest() == t[1..]
              else if t != "" && t[0] == ',' then x == Ok(false) && i <= |s| && Rest() == t[1..]
              else x == Err(ShapeInvalid)
    {
      Space();
      if !At(end) && !At(',') {
        return Err(ShapeInvalid);
      }
      x := Ok(At(end));
      assert Rest()[1..] == s[i + 1..];
      i := i + 1;
    }

    /** The items of an array, up to and including its bracket. */
    method Items(depth: nat) returns (r: Result<Json, Error>)
      requires i <= |s| && Sound() && depth <= lim.depth
      modifies this`i, this`nodes
      ensures Outcome(r, ParseItems(value(depth + 1), old(Rest()), [], old(nodes)))
      decreases Levels(lim, depth), 0
    {
      var items := [];
      ghost var inner := value(depth + 1);
      ghost var p := ParseItems(inner, Rest(), [], nodes);
      while true
        invariant i <= |s| && p == ParseItems(inner, Rest(), items, nodes)
        decreases |s| - i
      {
        Space();
        var item := Value(depth + 1);
        if item.Err? {
          return Err(item.error);
        }
        items := items + [item.value];
        var closes := Token(']');
        if closes != Ok(false) {
          return if closes.Ok? then Ok(Arr(items)) else Err(closes.error);
        }
      }
    }

    /** A member's key and colon. */
    method Key(fields: map<string, Json>) returns (x: Result<string, Error>)
      requires i <= |s| && Sound()
      modifies this`i
      ensures i <= |s|
      ensures match ParseKey(lex, old(Rest()), fields)
              case Ok(head) => x == Ok(head.0) && Rest() == head.1
              case Err(e) => x == Err(e)
    {
      Space();
      var key := String();
      if key.None? {
        return Err(ShapeInvalid);
      }
      if key.value in fields {
        return Err(DuplicateKey);
      }
      Space();
      if !At(':') {
        return Err(ShapeInvalid);
      }
      assert Rest()[1..] == s[i + 1..];
      i := i + 1;
      x := Ok(key.value);
    }

    /** One member, added to those so far. */
    method Member(fields: map<string, Json>, depth: nat) returns (r: Result<Json, Error>)
      requires i <= |s| && Sound() && depth <= lim.depth
      modifies this`i, this`nodes
      ensures Outcome(r, ParseMember(KeyAt(lex), value(depth + 1), old(Rest()), fields, old(nodes)))
      decreases Levels(lim, depth), 0
    {
      var key := Key(fields);
      if key.Err? {
        return Err(key.error);
      }
      var member := Value(depth + 1);
      if member.Err? {
        return Err(member.error);
      }
      r := Ok(Obj(fields[key.value := member.value]));
    }

    /** The members of an object, up to and including its brace. */
    method Members(depth: nat) returns (r: Result<Json, Error>)
      requires i <= |s| && Sound() && depth <= lim.depth
      modifies this`i, this`nodes
      ensures Outcome(r, ParseMembers(KeyAt(lex), value(depth + 1), old(Rest()), map[], old(nodes)))
      decreases Levels(lim, depth), 1
    {
      r := Ok(Obj(map[]));
      ghost var key, inner := KeyAt(lex), value(depth + 1);
      ghost var p := ParseMembers(key, inner, Rest(), map[], nodes);
      while true
        invariant i <= |s| && r.Ok? && r.value.Obj? && p == ParseMembers(key, inner, Rest(), r.value.fields, nodes)
        decreases |s| - i
      {
        MemberFirst(key, inner, Rest(), r.value.fields, nodes);
        r := Member(r.value.fields, depth);
        if r.Err? {
          return;
        }
        var closes := Token('}');
        if closes != Ok(false) {
          return if closes.Ok? then r else Err(closes.error);
        }
      }
    }

    /** An array or an object; the opening character decides which. */
    method Container(depth: nat) returns (r: Result<Json, Error>)
      requires i <= |s| && Sound() && depth <= lim.depth && (At('[') || At('{'))
      modifies this`i, this`nodes
      ensures Outcome(r, ParseBody(lex, value(depth + 1), old(Rest()), old(nodes)))
      decreases Levels(lim, depth), 2
    {
      var list := At('[');
      assert Rest()[1..] == s[i + 1..];
      i := i + 1;
      Space();
      if At(if list then ']' else '}') {
        assert Rest()[1..] == s[i + 1..];
        i := i + 1;
        return Ok(if list then Arr([]) else Obj(map[]));
      }
      if list {
        r := Items(depth);
      } else {
        r := Members(depth);
      }
    }

    /** Any value; its first character decides which. */
    method Body(depth: nat) returns (r: Result<Json, Error>)
      requires i <= |s| && Sound() && depth <= lim.depth
      modifies this`i, this`nodes
      ensures Outcome(r, ParseBody(lex, value(depth + 1), old(Rest()), old(nodes)))
      decreases Levels(lim, depth), 3
    {
      if At('{') || At('[') {
        r := Container(depth);
      } else if At('\"') {
        var x := String();
        r := if x.Some? then Ok(Str(x.value)) else Err(ShapeInvalid);
      } else {
        r := Literal();
      }
    }

    /** One value, budgets first. */
    method Value(depth: nat) returns (r: Result<Json, Error>)
      requires i <= |s| && Sound()
      modifies this`i, this`nodes
      ensures Outcome(r, value(depth)(old(Rest()), old(nodes)))
      decreases Levels(lim, depth), 4
    {
      assert OneLevel(lex, lim, value, depth, Rest(), nodes);
      nodes := nodes + 1;
      if depth > lim.depth || nodes > lim.nodes {
        return Err(StructureLimit);
      }
      Space();
      r := Body(depth);
    }

    /** The whole text. */
    method Parse() returns (r: Result<Json, Error>)
      requires i == 0 && nodes == 0 && Sound() && value == Parsers(lex, lim)
      modifies this`i, this`nodes
      ensures r == ParseAll(lex, s, lim)
    {
      assert Rest() == s;
      r := Value(0);
      if r.Ok? {
        Space();
        if i != |s| {
          r := Err(ShapeInvalid);
        }
      }
    }
  }

  /** A new parser per text, made only when the text is not too long. */
  method ReadText(text: string) returns (r: Result<Json, Error>)
    ensures r == ParseText(text)
  {
    if Utf8Length(text) > MAX_BYTES {
      return Err(InputLimit);
    }
    LexerLeavesSuffixes();
    var parser := new BoundedJson(LEXER, LIMITS, text);
    r := parser.Parse();
  }
}
