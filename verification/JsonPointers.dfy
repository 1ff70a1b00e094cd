/** Escaped property paths (section 4 of RFC 6901) and the selector validator. */
module JsonPointers {

  /** Every c replaced by w. */
  function Replace(s: string, c: char, w: string): string {
    if s == "" then "" else (if s[0] == c then w else [s[0]]) + Replace(s[1..], c, w)
  }

  /** Every pair ab replaced by c, left to right. */
  function ReplacePair(s: string, a: char, b: char, c: char): string {
    if |s| < 2 then s
    else if s[0] == a && s[1] == b then [c] + ReplacePair(s[2..], a, b, c)
    else [s[0]] + ReplacePair(s[1..], a, b, c)
  }

  function Escape(token: string): string {
    Replace(Replace(token, '~', "~0"), '/', "~1")
  }

  /** The standard's order: first the slashes, then the tildes. */
  function Unescape(token: string): string {
    ReplacePair(ReplacePair(token, '~', '1', '/'), '~', '0', '~')
  }

  /** Each token after a slash. */
  function Selector(path: seq<string>): string {
    if path == [] then "" else "/" + Escape(path[0]) + Selector(path[1..])
  }

  function Split(s: string): (tokens: seq<string>)
    ensures tokens != []
  {
    if s == "" then [""]
    else
      var rest := Split(s[1..]);
      if s[0] == '/' then [""] + rest else [[s[0]] + rest[0]] + rest[1..]
  }

  function Decode(selector: string): seq<string>
    requires selector != ""
  {
    var tokens := Split(selector[1..]);
    seq(|tokens|, i requires 0 <= i < |tokens| => Unescape(tokens[i]))
  }

  // ----- tokens

  function EscapeChar(c: char): string {
    if c == '~' then "~0" else if c == '/' then "~1" else [c]
  }

  lemma {:induction false} ReplaceConcat(a: string, b: string, c: char, w: string)
    ensures Replace(a + b, c, w) == Replace(a, c, w) + Replace(b, c, w)
  {
    if a == "" {
      assert a + b == b;
    } else {
      assert (a + b)[1..] == a[1..] + b;
      ReplaceConcat(a[1..], b, c, w);
    }
  }

  lemma EscapeUnit(c: char, rest: string)
    ensures Escape([c] + rest) == EscapeChar(c) + Escape(rest)
  {
    assert ([c] + rest)[1..] == rest;
    var first := if c == '~' then "~0" else [c];
    ReplaceConcat(first, Replace(rest, '~', "~0"), '/', "~1");
    assert "~0"[1..] == "0" && "0"[1..] == "";
    assert Replace(first, '/', "~1") == EscapeChar(c);
  }

  lemma PairUnit(x: char, rest: string, a: char, b: char, c: char)
    requires x != a
    ensures ReplacePair([x] + rest, a, b, c) == [x] + ReplacePair(rest, a, b, c)
  {
    assert ([x] + rest)[1..] == rest;
  }

  lemma UnescapeUnit(c: char, rest: string)
    ensures Unescape(EscapeChar(c) + rest) == [c] + Unescape(rest)
  {
    var s := EscapeChar(c) + rest;
    var inner := ReplacePair(rest, '~', '1', '/');
    if c == '/' {
      assert s[2..] == rest;
      PairUnit('/', inner, '~', '0', '~');
    } else if c == '~' {
      assert s[1..] == ['0'] + rest;
      PairUnit('0', rest, '~', '1', '/');
      var t := ['~'] + (['0'] + inner);
      assert ReplacePair(s, '~', '1', '/') == t;
      assert t[2..] == inner;
    } else {
      PairUnit(c, rest, '~', '1', '/');
      PairUnit(c, inner, '~', '0', '~');
    }
  }

  /** Unescaping undoes escaping on every token. */
  lemma {:induction false} UnescapeUndoesEscape(token: string)
    ensures Unescape(Escape(token)) == token
  {
    if token != "" {
      assert token == [token[0]] + token[1..];
      EscapeUnit(token[0], token[1..]);
      UnescapeUnit(token[0], Escape(token[1..]));
      UnescapeUndoesEscape(token[1..]);
    }
  }

  /** Every tilde begins an escape. */
  predicate WellEscaped(token: string) {
    forall i :: 0 <= i < |token| && token[i] == '~' ==> i + 1 < |token| && (token[i + 1] == '0' || token[i + 1] == '1')
  }

  lemma WellEscapedRest(token: string, n: nat)
    requires WellEscaped(token) && n <= |token|
    ensures WellEscaped(token[n..])
  {
    var rest := token[n..];
    forall i | 0 <= i < |rest| && rest[i] == '~'
      ensures i + 1 < |rest| && (rest[i + 1] == '0' || rest[i + 1] == '1')
    {
      assert token[n + i] == '~';
    }
  }

  /** And escaping undoes unescaping on every token that could stand in a selector. */
  lemma {:induction false} EscapeUndoesUnescape(token: string)
    requires WellEscaped(token) && '/' !in token
    ensures Escape(Unescape(token)) == token
    decreases |token|
  {
    if token != "" {
      var c := if token[0] != '~' then token[0] else if token[1] == '0' then '~' else '/';
      var n := |EscapeChar(c)|;
      assert token == EscapeChar(c) + token[n..];
      WellEscapedRest(token, n);
      UnescapeUnit(c, token[n..]);
      EscapeUnit(c, Unescape(token[n..]));
      EscapeUndoesUnescape(token[n..]);
    }
  }

  /** An escaped token has no slash, and every tilde in it begins an escape. */
  lemma {:induction false} EscapedIsWellEscaped(token: string)
    ensures WellEscaped(Escape(token)) && '/' !in Escape(token)
    ensures token != "" ==> Escape(token) != ""
  {
    if token != "" {
      assert token == [token[0]] + token[1..];
      EscapeUnit(token[0], token[1..]);
      EscapedIsWellEscaped(token[1..]);
      var head, tail := EscapeChar(token[0]), Escape(token[1..]);
      forall i | 0 <= i < |head + tail| && (head + tail)[i] == '~'
        ensures i + 1 < |head + tail| && ((head + tail)[i + 1] == '0' || (head + tail)[i + 1] == '1')
      {
        if i >= |head| {
          assert tail[i - |head|] == '~';
        }
      }
    }
  }

  // ----- paths

  lemma {:induction false} SplitToken(token: string, rest: string)
    requires '/' !in token
    ensures Split(token + "/" + rest) == [token] + Split(rest)
    ensures Split(token) == [token]
  {
    if token == "" {
      assert token + "/" + rest == "/" + rest;
      assert ("/" + rest)[1..] == rest;
    } else {
      var s := token + "/" + rest;
      assert s[1..] == token[1..] + "/" + rest;
      SplitToken(token[1..], rest);
      assert token == [token[0]] + token[1..];
    }
  }

  function EscapedTokens(path: seq<string>): seq<string> {
    seq(|path|, i requires 0 <= i < |path| => Escape(path[i]))
  }

  lemma FirstToken(head: string, tail: string)
    requires '/' !in head && (tail == "" || tail[0] == '/')
    ensures Split(("/" + head + tail)[1..]) == [head] + (if tail == "" then [] else Split(tail[1..]))
  {
    assert ("/" + head + tail)[1..] == head + tail;
    if tail == "" {
      assert head + tail == head;
      SplitToken(head, "");
    } else {
      assert head + tail == head + "/" + tail[1..];
      SplitToken(head, tail[1..]);
    }
  }

  lemma {:induction false} SelectorSplits(path: seq<string>)
    requires path != []
    ensures Selector(path) != "" && Split(Selector(path)[1..]) == EscapedTokens(path)
    decreases |path|
  {
    var tail := Selector(path[1..]);
    EscapedIsWellEscaped(path[0]);
    FirstToken(Escape(path[0]), tail);
    if |path| > 1 {
      SelectorSplits(path[1..]);
    }
    assert EscapedTokens(path) == [Escape(path[0])] + EscapedTokens(path[1..]);
  }

  /** A selector decodes back to the property path it was made from. */
  lemma SelectorRoundTrip(path: seq<string>)
    requires path != []
    ensures Selector(path) != "" && Decode(Selector(path)) == path
  {
    SelectorSplits(path);
    forall i | 0 <= i < |path|
      ensures Unescape(EscapedTokens(path)[i]) == path[i]
    {
      UnescapeUndoesEscape(path[i]);
    }
  }

  /** Distinct paths have distinct selectors. */
  lemma SelectorIsInjective(a: seq<string>, b: seq<string>)
    requires Selector(a) == Selector(b)
    ensures a == b
  {
    if a != [] && b != [] {
      SelectorRoundTrip(a);
      SelectorRoundTrip(b);
    }
  }

  // ----- the validator

  /** The regular expressions of the validator, by what they find. */
  datatype Patterns = Patterns(sensitive: string -> bool, valued: string -> bool)

  predicate IsExpression(c: char) {
    c in "$[]()*?"
  }

  predicate TokenAllowed(p: Patterns, token: string) {
    token != "" && (forall i :: 0 <= i < |token| ==> !IsExpression(token[i])) && !p.valued(token) && WellEscaped(token)
  }

  predicate PointerAllowed(p: Patterns, value: string) {
    && value != "" && value != "/" && value[0] == '/'
    && forall t :: t in Split(value[1..]) ==> TokenAllowed(p, t)
  }

  predicate BodySelectorAllowed(p: Patterns, value: string) {
    !p.sensitive(value) && PointerAllowed(p, value)
  }

  method EscapesValid(token: string) returns (ok: bool)
    ensures ok <==> WellEscaped(token)
  {
    var index := 0;
    while index < |token|
      invariant 0 <= index <= |token|
      invariant forall i :: 0 <= i < index && token[i] == '~' ==> i + 1 < |token| && (token[i + 1] == '0' || token[i + 1] == '1')
    {
      if token[index] == '~' {
        if index + 1 >= |token| || token[index + 1] !in "01" {
          return false;
        }
        assert "01"[0] == '0' && "01"[1] == '1';
        index := index + 2;
      } else {
        index := index + 1;
      }
    }
    ok := true;
  }

  method TokenValid(p: Patterns, token: string) returns (ok: bool)
    ensures ok <==> TokenAllowed(p, token)
  {
    if token == "" || (exists i :: 0 <= i < |token| && IsExpression(token[i])) || p.valued(token) {
      return false;
    }
    ok := EscapesValid(token);
  }

  method ValidatePointer(p: Patterns, value: string) returns (ok: bool)
    ensures ok <==> PointerAllowed(p, value)
  {
    if value == "" || value == "/" || value[0] != '/' {
      return false;
    }
    var tokens, i := Split(value[1..]), 0;
    while i < |tokens|
      invariant 0 <= i <= |tokens| && forall t :: t in tokens[..i] ==> TokenAllowed(p, t)
    {
      ok := TokenValid(p, tokens[i]);
      if !ok {
        return;
      }
      i := i + 1;
    }
    ok := true;
  }

  /** A path's selector passes the escape scan and is split where its tokens end: only the tokens themselves can be refused. */
  lemma SelectorsPassTheScan(p: Patterns, path: seq<string>)
    requires path != []
    ensures PointerAllowed(p, Selector(path)) <==>
              forall i :: 0 <= i < |path| ==>
                var t := Escape(path[i]); path[i] != "" && (forall j :: 0 <= j < |t| ==> !IsExpression(t[j])) && !p.valued(t)
  {
    SelectorSplits(path);
    var tokens := EscapedTokens(path);
    forall i | 0 <= i < |path|
      ensures WellEscaped(tokens[i]) && (tokens[i] == "" <==> path[i] == "")
    {
      EscapedIsWellEscaped(path[i]);
    }
    assert forall i :: 0 <= i < |path| ==> tokens[i] in tokens;
    if Selector(path) == "/" {
      assert tokens == Split("") && tokens[0] == "";
    }
  }
}
