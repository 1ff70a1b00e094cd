/**
 The canonical form of an accepted text is never longer than the text, counted in
 UTF-8, so storing it can not make it exceed the cap it was accepted under.

 Every character is escaped to no more bytes than it was read from, every integer is
 printed in no more characters, and what stands between the parts of an array or an
 object is what was read between them at least. The size of an object does not depend on
 the order of its members, because it is a sum over its keys; so the sum over the members
 as they were read and the sum over the sorted ones are the same.
 */
module JsonSizes {
  import opened Wrappers
  import opened JsonText
  import opened JsonValues
  import opened JsonParser
  import opened JsonRoundTrip
  import opened JsonLimits

  function Width(c: char): nat {
    var n := c as int;
    if n < 0x80 then 1 else if n < 0x800 then 2 else if n < 0x1_0000 then 3 else 4
  }

  lemma Utf8Cons(r: string)
    requires r != ""
    ensures Utf8Length(r) == Width(r[0]) + Utf8Length(r[1..])
  {}

  lemma {:induction false} Utf8Concat(a: string, b: string)
    ensures Utf8Length(a + b) == Utf8Length(a) + Utf8Length(b)
  {
    if a == "" {
      assert a + b == b;
    } else {
      assert (a + b)[1..] == a[1..] + b;
      Utf8Cons(a + b);
      Utf8Concat(a[1..], b);
    }
  }

  /** Dropping k characters drops at least k bytes. */
  lemma {:induction false} Utf8Drop(r: string, k: nat)
    requires k <= |r|
    ensures Utf8Length(r[k..]) + k <= Utf8Length(r)
  {
    if k > 0 {
      Utf8Cons(r);
      assert r[1..][k - 1..] == r[k..];
      Utf8Drop(r[1..], k - 1);
    } else {
      assert r[0..] == r;
    }
  }

  lemma {:induction false} SkipShrinks(r: string)
    ensures Utf8Length(SkipSpace(r)) <= Utf8Length(r)
  {
    if r != "" && IsSpace(r[0]) {
      Utf8Cons(r);
      SkipShrinks(r[1..]);
    }
  }

  // ----- strings

  lemma EscapeCharSize(c: char)
    ensures Utf8Length(EscapeChar(c)) == |EscapeChar(c)| || EscapeChar(c) == [c]
    ensures |EscapeChar(c)| == 1 || |EscapeChar(c)| == 2 || |EscapeChar(c)| == 6
    ensures Utf8Length([c]) == Width(c)
  {
    var e := EscapeChar(c);
    assert [c][1..] == "";
    if e != [c] {
      AsciiSize(e);
    }
  }

  lemma {:induction false} AsciiSize(s: string)
    requires forall i :: 0 <= i < |s| ==> s[i] as int < 0x80
    ensures Utf8Length(s) == |s|
  {
    if s != "" {
      AsciiSize(s[1..]);
    }
  }

  /** A character is never escaped to more bytes than it was read from. */
  lemma ScanCharShrinks(r: string)
    ensures ScanChar(r).Next? ==> Utf8Length(EscapeChar(ScanChar(r).c)) + Utf8Length(ScanChar(r).rest) <= Utf8Length(r)
    ensures ScanChar(r).Closed? ==> 1 + Utf8Length(ScanChar(r).rest) <= Utf8Length(r)
  {
    var x := ScanChar(r);
    if x.Next? {
      EscapeCharSize(x.c);
      if r[0] != '\\' {
        Utf8Cons(r);
      } else if r[1] == 'u' {
        UnicodeShrinks(r);
      } else {
        Utf8Drop(r, 2);
      }
    } else if x.Closed? {
      Utf8Drop(r, 1);
    }
  }

  lemma UnicodeShrinks(r: string)
    requires |r| >= 2 && ScanUnicode(r).Next?
    ensures Utf8Length(EscapeChar(ScanUnicode(r).c)) + Utf8Length(ScanUnicode(r).rest) <= Utf8Length(r)
  {
    var x := ScanUnicode(r);
    EscapeCharSize(x.c);
    Utf8Drop(r, |r| - |x.rest|);
    assert r[|r| - |x.rest|..] == x.rest;
  }

  lemma {:induction false} ScanStringShrinks(r: string, acc: string)
    ensures ScanString(r, acc).Some? ==>
              var (s, rest) := ScanString(r, acc).value;
              acc <= s && Utf8Length(Escape(s[|acc|..])) + 1 + Utf8Length(rest) <= Utf8Length(r)
    decreases |r|
  {
    var x := ScanChar(r);
    ScanCharShrinks(r);
    if x.Closed? {
      assert acc[|acc|..] == "";
    } else if x.Next? {
      ScanStringShrinks(x.rest, acc + [x.c]);
      if ScanString(r, acc).Some? {
        EscapedAfter(ScanString(r, acc).value.0, acc, x.c);
      }
    }
  }

  lemma EscapedAfter(s: string, acc: string, c: char)
    requires acc + [c] <= s
    ensures Utf8Length(Escape(s[|acc|..])) == Utf8Length(EscapeChar(c)) + Utf8Length(Escape(s[|acc| + 1..]))
  {
    var tail := s[|acc|..];
    assert tail[0] == c && tail[1..] == s[|acc| + 1..];
    Utf8Concat(EscapeChar(c), Escape(tail[1..]));
  }

  lemma QuoteSize(s: string)
    ensures Utf8Length(Quote(s)) == 2 + Utf8Length(Escape(s))
  {
    Utf8Concat("\"" + Escape(s), "\"");
    Utf8Concat("\"", Escape(s));
    assert "\""[1..] == "";
  }

  // ----- integers

  lemma {:induction false} NoLongerThanRead(s: string)
    requires s != "" && forall i :: 0 <= i < |s| ==> IsDigit(s[i])
    ensures |Digits(ToNat(s))| <= |s|
  {
    if ToNat(s) > 0 {
      ToNatBound(s);
      DigitsLength(ToNat(s), |s|);
    }
  }

  lemma ScanIntShrinks(r: string)
    ensures ScanInt(r).Some? ==> Utf8Length(IntText(ScanInt(r).value.0)) + Utf8Length(ScanInt(r).value.1) <= Utf8Length(r)
  {
    if ScanInt(r).Some? {
      var k, n := TokenLength(r), ScanInt(r).value.0;
      Utf8Drop(r, k);
      if r[0] == '-' {
        NoLongerThanRead(r[1..k]);
      } else {
        NoLongerThanRead(r[..k]);
      }
      IntTextIsAscii(n);
      assert |IntText(n)| <= k;
    }
  }

  lemma IntTextIsAscii(n: int)
    ensures Utf8Length(IntText(n)) == |IntText(n)|
  {
    AsciiSize(IntText(n));
  }

  ghost predicate ScannersShrink(lex: Lexer) {
    && (forall r :: lex.text(r).Some? ==> Utf8Length(Quote(lex.text(r).value.0)) + Utf8Length(lex.text(r).value.1) <= Utf8Length(r) + 1)
    && (forall r :: lex.number(r).Some? ==> Utf8Length(IntText(lex.number(r).value.0)) + Utf8Length(lex.number(r).value.1) <= Utf8Length(r))
  }

  lemma LexerShrinks()
    ensures ScannersShrink(LEXER)
  {
    forall r | LEXER.text(r).Some?
      ensures Utf8Length(Quote(LEXER.text(r).value.0)) + Utf8Length(LEXER.text(r).value.1) <= Utf8Length(r) + 1
    {
      var s := LEXER.text(r).value.0;
      ScanStringShrinks(r, "");
      QuoteSize(s);
      assert s[0..] == s;
    }
    forall r | LEXER.number(r).Some?
      ensures Utf8Length(IntText(LEXER.number(r).value.0)) + Utf8Length(LEXER.number(r).value.1) <= Utf8Length(r)
    {
      ScanIntShrinks(r);
    }
  }

  // ----- joined parts

  function Weigh(parts: seq<string>): nat {
    if parts == [] then 0 else Utf8Length(parts[0]) + Weigh(parts[1..])
  }

  lemma {:induction false} WeighSnoc(parts: seq<string>, p: string)
    ensures Weigh(parts + [p]) == Weigh(parts) + Utf8Length(p)
  {
    if parts == [] {
      assert parts + [p] == [p] && [p][1..] == [];
    } else {
      assert (parts + [p])[1..] == parts[1..] + [p];
      WeighSnoc(parts[1..], p);
    }
  }

  function Commas(n: nat): nat {
    if n == 0 then 0 else n - 1
  }

  lemma {:induction false} JoinSize(parts: seq<string>)
    ensures Utf8Length(Join(parts)) == Weigh(parts) + Commas(|parts|)
  {
    if |parts| == 1 {
      assert parts[1..] == [];
    } else if |parts| > 1 {
      JoinSize(parts[1..]);
      Utf8Concat(parts[0] + ",", Join(parts[1..]));
      Utf8Concat(parts[0], ",");
      assert ","[1..] == "";
    }
  }

  lemma EnclosedSize(open: char, inner: string, close: char)
    requires open as int < 0x80 && close as int < 0x80
    ensures Utf8Length([open] + inner + [close]) == 2 + Utf8Length(inner)
  {
    Utf8Concat([open] + inner, [close]);
    Utf8Concat([open], inner);
    assert [open][1..] == "" && [close][1..] == "";
  }

  ghost function Size(v: Json): nat {
    Utf8Length(Canonical(v))
  }

  ghost function ItemsSize(items: seq<Json>): nat {
    Weigh(Texts(items))
  }

  lemma ItemsSizeSnoc(items: seq<Json>, v: Json)
    ensures ItemsSize(items + [v]) == ItemsSize(items) + Size(v)
  {
    assert Texts(items + [v]) == Texts(items) + [Canonical(v)];
    WeighSnoc(Texts(items), Canonical(v));
  }

  lemma ArraySize(items: seq<Json>)
    ensures Size(Arr(items)) == 2 + ItemsSize(items) + Commas(|items|)
  {
    CanonicalArray(items);
    JoinSize(Texts(items));
    EnclosedSize('[', Join(Texts(items)), ']');
  }

  // ----- sums over keys

  ghost function SumOver(w: string -> nat, ks: set<string>): nat {
    if ks == {} then 0 else var k :| k in ks; w(k) + SumOver(w, ks - {k})
  }

  lemma {:induction false} SumPick(w: string -> nat, ks: set<string>, k: string)
    requires k in ks
    ensures SumOver(w, ks) == w(k) + SumOver(w, ks - {k})
    decreases |ks|
  {
    var x :| x in ks && SumOver(w, ks) == w(x) + SumOver(w, ks - {x});
    if x != k {
      SumPick(w, ks - {x}, k);
      SumPick(w, ks - {k}, x);
      assert ks - {x} - {k} == ks - {k} - {x};
    }
  }

  lemma {:induction false} SumAgree(w: string -> nat, u: string -> nat, ks: set<string>)
    requires forall k :: k in ks ==> w(k) == u(k)
    ensures SumOver(w, ks) == SumOver(u, ks)
    decreases |ks|
  {
    if ks != {} {
      var k :| k in ks;
      SumPick(w, ks, k);
      SumPick(u, ks, k);
      SumAgree(w, u, ks - {k});
    }
  }

  ghost function MemberSize(fields: map<string, Json>): string -> nat {
    k => if k in fields then Utf8Length(MemberText(k, Canonical(fields[k]))) else 0
  }

  ghost function FieldsSize(fields: map<string, Json>): nat {
    SumOver(MemberSize(fields), fields.Keys)
  }

  lemma FieldsSizeNew(fields: map<string, Json>, k: string, v: Json)
    requires k !in fields
    ensures FieldsSize(fields[k := v]) == FieldsSize(fields) + Utf8Length(MemberText(k, Canonical(v)))
  {
    var more := fields[k := v];
    var size, before := MemberSize(more), MemberSize(fields);
    SumPick(size, more.Keys, k);
    assert more.Keys - {k} == fields.Keys;
    SumAgree(size, before, fields.Keys);
  }

  lemma {:induction false} SumOverListed(w: string -> nat, ks: seq<string>, parts: seq<string>)
    requires |parts| == |ks| && forall i :: 0 <= i < |ks| ==> Utf8Length(parts[i]) == w(ks[i])
    requires forall i, j :: 0 <= i < j < |ks| ==> ks[i] != ks[j]
    ensures Weigh(parts) == SumOver(w, (set k | k in ks))
    decreases |ks|
  {
    if ks != [] {
      SumOverListed(w, ks[1..], parts[1..]);
      SumPick(w, (set k | k in ks), ks[0]);
      assert (set k | k in ks) - {ks[0]} == (set k | k in ks[1..]);
    }
  }

  ghost function MemberTexts(v: Json): seq<string>
    requires v.Obj?
  {
    var ks := Sorted(v.fields.Keys);
    seq(|ks|, i requires 0 <= i < |ks| => assert ks[i] in ks; MemberText(ks[i], Canonical(v.fields[ks[i]])))
  }

  lemma CanonicalMembers(v: Json)
    requires v.Obj?
    ensures Canonical(v) == "{" + Join(MemberTexts(v)) + "}"
  {
    var ks := Sorted(v.fields.Keys);
    var parts := seq(|ks|, i requires 0 <= i < |ks| => assert ks[i] in ks; MemberText(ks[i], Canonical(v.fields[ks[i]])));
    assert parts == MemberTexts(v);
  }

  lemma MemberTextsWeigh(v: Json)
    requires v.Obj?
    ensures Weigh(MemberTexts(v)) == FieldsSize(v.fields)
  {
    var ks := Sorted(v.fields.Keys);
    SortedIsStrictlyIncreasing(v.fields.Keys);
    var texts, size := MemberTexts(v), MemberSize(v.fields);
    forall i | 0 <= i < |ks|
      ensures Utf8Length(texts[i]) == size(ks[i])
    {
      assert ks[i] in ks;
    }
    SumOverListed(size, ks, texts);
    assert (set k | k in ks) == v.fields.Keys;
  }

  lemma ObjectSize(v: Json)
    requires v.Obj?
    ensures Size(v) == 2 + FieldsSize(v.fields) + Commas(|v.fields|)
  {
    CanonicalMembers(v);
    MemberTextsWeigh(v);
    JoinSize(MemberTexts(v));
    EnclosedSize('{', Join(MemberTexts(v)), '}');
    assert |v.fields| == |v.fields.Keys|;
  }

  // ----- the parser

  /** Whatever f reads prints in no more bytes than were read. */
  ghost predicate Shrinks(f: ValueParser) {
    forall t, n :: Fit(f(t, n), t)
  }

  ghost predicate Fit(p: Parse, t: string) {
    p.Parsed? ==> Size(p.v) + Utf8Length(p.rest) <= Utf8Length(t)
  }

  lemma {:induction false} ItemsShrink(f: ValueParser, text: string, acc: seq<Json>, before: int)
    requires Shrinks(f)
    ensures var p := ParseItems(f, text, acc, before);
            p.Parsed? ==>
              && p.v.Arr? && |p.v.items| > |acc|
              && ItemsSize(p.v.items) + |p.v.items| + Utf8Length(p.rest) <= Utf8Length(text) + ItemsSize(acc) + |acc|
    decreases |text|
  {
    var item := f(SkipSpace(text), before);
    assert Fit(item, SkipSpace(text));
    SkipShrinks(text);
    if item.Parsed? {
      var t := SkipSpace(item.rest);
      SkipShrinks(item.rest);
      ItemsSizeSnoc(acc, item.v);
      if t != "" {
        Utf8Drop(t, 1);
        if t[0] == ',' {
          ItemsShrink(f, t[1..], acc + [item.v], item.nodes);
        }
      }
    }
  }

  ghost predicate KeysShrink(key: KeyParser) {
    forall t, acc: map<string, Json> :: key(t, acc).Ok? ==>
      key(t, acc).value.0 !in acc && Utf8Length(Quote(key(t, acc).value.0)) + 1 + Utf8Length(key(t, acc).value.1) <= Utf8Length(t)
  }

  lemma KeyAtShrinks(lex: Lexer)
    requires ScannersShrink(lex)
    ensures KeysShrink(KeyAt(lex))
  {
    forall t, acc: map<string, Json> | KeyAt(lex)(t, acc).Ok?
      ensures KeyAt(lex)(t, acc).value.0 !in acc
      ensures Utf8Length(Quote(KeyAt(lex)(t, acc).value.0)) + 1 + Utf8Length(KeyAt(lex)(t, acc).value.1) <= Utf8Length(t)
    {
      KeyShrinks(lex, t, acc);
    }
  }

  lemma KeyShrinks(lex: Lexer, text: string, acc: map<string, Json>)
    requires ScannersShrink(lex) && ParseKey(lex, text, acc).Ok?
    ensures var (k, after) := ParseKey(lex, text, acc).value;
            k !in acc && Utf8Length(Quote(k)) + 1 + Utf8Length(after) <= Utf8Length(text)
  {
    var r := SkipSpace(text);
    SkipShrinks(text);
    Utf8Drop(r, 1);
    var key := lex.text(r[1..]);
    SkipShrinks(key.value.1);
    Utf8Drop(SkipSpace(key.value.1), 1);
  }

  lemma MemberTextSize(k: string, value: string)
    ensures Utf8Length(MemberText(k, value)) == Utf8Length(Quote(k)) + 1 + Utf8Length(value)
  {
    Utf8Concat(Quote(k) + ":", value);
    Utf8Concat(Quote(k), ":");
    assert ":"[1..] == "";
  }

  lemma {:induction false} MembersShrink(key: KeyParser, f: ValueParser, text: string, acc: map<string, Json>, before: int)
    requires Shrinks(f) && KeysShrink(key)
    ensures var p := ParseMembers(key, f, text, acc, before);
            p.Parsed? ==>
              && p.v.Obj? && |p.v.fields| > |acc|
              && FieldsSize(p.v.fields) + |p.v.fields| + Utf8Length(p.rest) <= Utf8Length(text) + FieldsSize(acc) + |acc|
    decreases |text|
  {
    var head := key(text, acc);
    if head.Ok? {
      var (k, after) := head.value;
      var member := f(after, before);
      assert Fit(member, after);
      if member.Parsed? {
        var fields := acc[k := member.v];
        FieldsSizeNew(acc, k, member.v);
        MemberTextSize(k, Canonical(member.v));
        assert fields.Keys == acc.Keys + {k};
        var t := SkipSpace(member.rest);
        SkipShrinks(member.rest);
        if t != "" {
          Utf8Drop(t, 1);
          if t[0] == ',' {
            MembersShrink(key, f, t[1..], fields, member.nodes);
          }
        }
      }
    }
  }

  /** A whole array after its opening bracket; the bracket pays for the missing comma. */
  lemma ItemsFit(f: ValueParser, t: string, n: int)
    requires Shrinks(f)
    ensures var p := ParseItems(f, t, [], n); p.Parsed? ==> Size(p.v) + Utf8Length(p.rest) <= Utf8Length(t) + 1
  {
    ItemsShrink(f, t, [], n);
    var p := ParseItems(f, t, [], n);
    if p.Parsed? {
      ArraySize(p.v.items);
    }
  }

  lemma MembersFit(key: KeyParser, f: ValueParser, t: string, n: int)
    requires Shrinks(f) && KeysShrink(key)
    ensures var p := ParseMembers(key, f, t, map[], n); p.Parsed? ==> Size(p.v) + Utf8Length(p.rest) <= Utf8Length(t) + 1
  {
    MembersShrink(key, f, t, map[], n);
    var p := ParseMembers(key, f, t, map[], n);
    if p.Parsed? {
      ObjectSize(p.v);
    }
  }

  lemma EmptySizes()
    ensures Size(Arr([])) == 2 && Size(Obj(map[])) == 2
  {
    ArraySize([]);
    ObjectSize(Obj(map[]));
  }

  lemma OpeningShrinks(r: string)
    requires r != ""
    ensures var t := SkipSpace(r[1..]);
            Utf8Length(t) + 1 <= Utf8Length(r) && (t != "" ==> Utf8Length(t[1..]) + 2 <= Utf8Length(r))
  {
    var t := SkipSpace(r[1..]);
    Utf8Drop(r, 1);
    SkipShrinks(r[1..]);
    if t != "" {
      Utf8Drop(t, 1);
    }
  }

  lemma ArrayShrinks(lex: Lexer, f: ValueParser, r: string, n: int)
    requires Shrinks(f) && r != "" && r[0] == '['
    ensures Fit(ParseBody(lex, f, r, n), r)
  {
    OpeningShrinks(r);
    EmptySizes();
    ItemsFit(f, SkipSpace(r[1..]), n);
  }

  lemma ObjectShrinks(lex: Lexer, f: ValueParser, r: string, n: int)
    requires Shrinks(f) && ScannersShrink(lex) && r != "" && r[0] == '{'
    ensures Fit(ParseBody(lex, f, r, n), r)
  {
    OpeningShrinks(r);
    EmptySizes();
    KeyAtShrinks(lex);
    MembersFit(KeyAt(lex), f, SkipSpace(r[1..]), n);
  }

  lemma WordSizes()
    ensures Size(Bool(true)) == 4 && Size(Bool(false)) == 5 && Size(Null) == 4
  {
    AsciiSize("true");
    AsciiSize("false");
    AsciiSize("null");
  }

  lemma LiteralShrinks(lex: Lexer, r: string, n: int)
    requires ScannersShrink(lex)
    ensures Fit(ParseLiteral(lex, r, n), r)
  {
    WordSizes();
    if StartsWith(r, "true") || StartsWith(r, "null") {
      Utf8Drop(r, 4);
    } else if StartsWith(r, "false") {
      Utf8Drop(r, 5);
    }
  }

  lemma TextShrinks(lex: Lexer, f: ValueParser, r: string, n: int)
    requires ScannersShrink(lex) && r != "" && r[0] == '\"'
    ensures Fit(ParseBody(lex, f, r, n), r)
  {
    Utf8Drop(r, 1);
  }

  lemma LeafShrinks(lex: Lexer, f: ValueParser, r: string, n: int)
    requires ScannersShrink(lex) && (r == "" || (r[0] != '[' && r[0] != '{'))
    ensures Fit(ParseBody(lex, f, r, n), r)
  {
    if r != "" && r[0] == '\"' {
      TextShrinks(lex, f, r, n);
    } else if r != "" {
      LiteralShrinks(lex, r, n);
    }
  }

  lemma BodyShrinks(lex: Lexer, f: ValueParser, r: string, n: int)
    requires Shrinks(f) && ScannersShrink(lex)
    ensures Fit(ParseBody(lex, f, r, n), r)
  {
    if r != "" && r[0] == '[' {
      ArrayShrinks(lex, f, r, n);
    } else if r != "" && r[0] == '{' {
      ObjectShrinks(lex, f, r, n);
    } else {
      LeafShrinks(lex, f, r, n);
    }
  }

  lemma SkippedFits(p: Parse, t: string)
    requires Fit(p, SkipSpace(t))
    ensures Fit(p, t)
  {
    SkipShrinks(t);
  }

  lemma LevelShrinks(lex: Lexer, lim: Limits, value: int -> ValueParser, depth: int, t: string, n: int)
    requires ScannersShrink(lex) && OneLevel(lex, lim, value, depth, t, n)
    requires depth <= lim.depth ==> Shrinks(value(depth + 1))
    ensures Fit(value(depth)(t, n), t)
  {
    if depth <= lim.depth {
      BodyShrinks(lex, value(depth + 1), SkipSpace(t), n + 1);
      SkippedFits(ParseBody(lex, value(depth + 1), SkipSpace(t), n + 1), t);
    }
  }

  lemma {:induction false} LevelsShrink(lex: Lexer, lim: Limits, value: int -> ValueParser, depth: int)
    requires ScannersShrink(lex) && Descends(lex, lim, value)
    ensures Shrinks(value(depth))
    decreases Levels(lim, depth)
  {
    if depth <= lim.depth {
      LevelsShrink(lex, lim, value, depth + 1);
    }
    forall t, n
      ensures Fit(value(depth)(t, n), t)
    {
      assert OneLevel(lex, lim, value, depth, t, n);
      LevelShrinks(lex, lim, value, depth, t, n);
    }
  }

  lemma WholeShrinks(lex: Lexer, lim: Limits, text: string)
    requires ScannersShrink(lex) && ParseAll(lex, text, lim).Ok?
    ensures Size(ParseAll(lex, text, lim).value) <= Utf8Length(text)
  {
    ParsersDescend(lex, lim);
    LevelsShrink(lex, lim, Parsers(lex, lim), 0);
    assert Fit(Parsers(lex, lim)(0)(text, 0), text);
  }

  /** The canonical form of an accepted text fits the cap. */
  lemma CanonicalIsNoLonger(text: string)
    ensures ParseText(text).Ok? ==> Utf8Length(Canonical(ParseText(text).value)) <= Utf8Length(text) <= MAX_BYTES
  {
    if ParseText(text).Ok? {
      LexerShrinks();
      WholeShrinks(LEXER, LIMITS, text);
    }
  }

  /** So what was accepted can always be stored canonically and read again as the same value. */
  lemma AcceptedSurvivesStorage(text: string)
    ensures ParseText(text).Ok? ==> ParseText(Canonical(ParseText(text).value)) == ParseText(text)
  {
    AcceptedIsWithinLimits(text);
    CanonicalIsNoLonger(text);
    if ParseText(text).Ok? {
      ParserUndoesPrinter(ParseText(text).value);
    }
  }
}
