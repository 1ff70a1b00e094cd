/**
 The parser undoes the printer on every value within the limits.

 The containers come first: given how each part is read back, the loop over the parts
 reads the joined text. Then a level of the parser, given the next one, and an induction
 over values that are shallow and readable. Parsers are variables throughout; what a level
 does with the next is stated once, in Descends, and the two scanners enter only through
 what the printer needs from them.
 */
module JsonRoundTrip {
  import opened Wrappers
  import opened JsonText
  import opened JsonValues
  import opened JsonParser

  lemma SkipNothing(r: string)
    requires r == "" || !IsSpace(r[0])
    ensures SkipSpace(r) == r
  {}

  /** What the printer needs from the two scanners. */
  ghost predicate Undoes(lex: Lexer) {
    && (forall s, post :: lex.text(Escape(s) + "\"" + post) == Some((s, post)))
    && (forall n, post :: Readable(n) && Breaks(post) ==> lex.number(IntText(n) + post) == Some((n, post)))
  }

  lemma LexerUndoesPrinter()
    ensures Undoes(LEXER)
  {
    forall s, post
      ensures LEXER.text(Escape(s) + "\"" + post) == Some((s, post))
    {
      ScanQuoted(s, "", post);
      assert "" + s == s;
    }
    forall n, post | Readable(n) && Breaks(post)
      ensures LEXER.number(IntText(n) + post) == Some((n, post))
    {
      ScanPrintedInt(n, post);
    }
  }

  // ----- containers, given how their parts are read

  /** Wherever the text stands, the parser reads it as v and spends `count` nodes. */
  ghost predicate Reads(value: ValueParser, text: string, v: Json, count: nat, nodes: int) {
    && text != "" && !IsSpace(text[0]) && text[0] != ']' && text[0] != '}'
    && (forall post, before :: Breaks(post) && before + count <= nodes ==>
          value(text + post, before) == Parsed(v, post, before + count))
  }

  function Sum(counts: seq<nat>): nat {
    if counts == [] then 0 else counts[0] + Sum(counts[1..])
  }

  /** What follows the first part of a joined text. */
  function Tail(parts: seq<string>, close: string, post: string): string
    requires parts != []
  {
    if |parts| == 1 then close + post else "," + (Join(parts[1..]) + close + post)
  }

  lemma JoinSplits(parts: seq<string>, close: string, post: string)
    requires parts != []
    ensures Join(parts) + close + post == parts[0] + Tail(parts, close, post)
  {}

  lemma {:induction false} ReadsItems(value: ValueParser, texts: seq<string>, items: seq<Json>, counts: seq<nat>, acc: seq<Json>, post: string, before: int, nodes: int)
    requires |texts| == |items| == |counts| > 0
    requires forall i :: 0 <= i < |items| ==> Reads(value, texts[i], items[i], counts[i], nodes)
    requires before + Sum(counts) <= nodes
    ensures ParseItems(value, Join(texts) + "]" + post, acc, before) == Parsed(Arr(acc + items), post, before + Sum(counts))
    decreases |items|
  {
    var tail := Tail(texts, "]", post);
    JoinSplits(texts, "]", post);
    assert Reads(value, texts[0], items[0], counts[0], nodes);
    SkipNothing(texts[0] + tail);
    SkipNothing(tail);
    if |items| == 1 {
      assert tail[1..] == post && items == [items[0]] && counts[1..] == [];
    } else {
      assert tail[1..] == Join(texts[1..]) + "]" + post;
      ReadsItems(value, texts[1..], items[1..], counts[1..], acc + [items[0]], post, before + counts[0], nodes);
      assert acc + [items[0]] + items[1..] == acc + items;
    }
  }

  /** The head of a member: its key and colon, read whenever the key is new. */
  ghost predicate ReadsKey(key: KeyParser, head: string, k: string) {
    head != "" && forall after, acc: map<string, Json> :: k !in acc ==> key(head + after, acc) == Ok((k, after))
  }

  lemma KeyOfPrinted(lex: Lexer, k: string, after: string, acc: map<string, Json>)
    requires Undoes(lex) && k !in acc
    ensures ParseKey(lex, Quote(k) + ":" + after, acc) == Ok((k, after))
  {
    var text, colon := Quote(k) + ":" + after, ":" + after;
    assert text[1..] == Escape(k) + "\"" + colon;
    assert colon[1..] == after;
    KeyBeforeColon(lex, k, text, colon, acc);
  }

  lemma KeyBeforeColon(lex: Lexer, k: string, text: string, colon: string, acc: map<string, Json>)
    requires text != "" && text[0] == '\"' && colon != "" && colon[0] == ':'
    requires lex.text(text[1..]) == Some((k, colon)) && k !in acc
    ensures ParseKey(lex, text, acc) == Ok((k, colon[1..]))
  {
    SkipNothing(text);
    SkipNothing(colon);
  }

  /** The fields listed by ks with their values. */
  ghost function Listed(acc: map<string, Json>, ks: seq<string>, items: seq<Json>): map<string, Json>
    requires |ks| == |items|
    decreases |ks|
  {
    if ks == [] then acc else Listed(acc[ks[0] := items[0]], ks[1..], items[1..])
  }

  function Concat(heads: seq<string>, texts: seq<string>): seq<string>
    requires |heads| == |texts|
  {
    seq(|heads|, i requires 0 <= i < |heads| => heads[i] + texts[i])
  }

  lemma TakesMember(key: KeyParser, value: ValueParser, head: string, k: string, text: string, tail: string, acc: map<string, Json>, v: Json, count: nat, before: int, nodes: int)
    requires ReadsKey(key, head, k) && k !in acc && Breaks(tail) && before + count <= nodes
    requires Reads(value, text, v, count, nodes)
    requires tail != "" && (tail[0] == '}' || tail[0] == ',')
    ensures ParseMembers(key, value, head + text + tail, acc, before)
            == if tail[0] == '}' then Parsed(Obj(acc[k := v]), tail[1..], before + count)
               else ParseMembers(key, value, tail[1..], acc[k := v], before + count)
  {
    assert head + text + tail == head + (text + tail);
    assert value(text + tail, before) == Parsed(v, tail, before + count);
    SkipNothing(tail);
  }

  lemma {:induction false} ReadsMembers(key: KeyParser, value: ValueParser, heads: seq<string>, ks: seq<string>, texts: seq<string>, items: seq<Json>, counts: seq<nat>, acc: map<string, Json>, post: string, before: int, nodes: int)
    requires |heads| == |ks| == |texts| == |items| == |counts| > 0
    requires forall i :: 0 <= i < |ks| ==> ks[i] !in acc && ReadsKey(key, heads[i], ks[i])
    requires forall i, j :: 0 <= i < j < |ks| ==> ks[i] != ks[j]
    requires forall i :: 0 <= i < |ks| ==> Reads(value, texts[i], items[i], counts[i], nodes)
    requires before + Sum(counts) <= nodes
    ensures ParseMembers(key, value, Join(Concat(heads, texts)) + "}" + post, acc, before)
            == Parsed(Obj(Listed(acc, ks, items)), post, before + Sum(counts))
    decreases |ks|
  {
    var parts := Concat(heads, texts);
    var tail := Tail(parts, "}", post);
    JoinSplits(parts, "}", post);
    TakesMember(key, value, heads[0], ks[0], texts[0], tail, acc, items[0], counts[0], before, nodes);
    if |ks| == 1 {
      assert tail[1..] == post && counts[1..] == [];
    } else {
      assert parts[1..] == Concat(heads[1..], texts[1..]);
      assert tail[1..] == Join(parts[1..]) + "}" + post;
      ReadsMembers(key, value, heads[1..], ks[1..], texts[1..], items[1..], counts[1..], acc[ks[0] := items[0]], post, before + counts[0], nodes);
    }
  }

  // ----- whole values

  /** As Reads, for what follows the budget checks. */
  ghost predicate BodyReads(lex: Lexer, value: ValueParser, text: string, v: Json, inner: nat, nodes: int) {
    && text != "" && !IsSpace(text[0]) && text[0] != ']' && text[0] != '}'
    && (forall post, n :: Breaks(post) && n + inner <= nodes ==>
          ParseBody(lex, value, text + post, n) == Parsed(v, post, n + inner))
  }

  /**
   Parsers by how deep they may still go: each spends its node, skips space and reads
   the rest with the one a level further down.
   */
  ghost predicate Stacked(lex: Lexer, levels: int -> ValueParser, nodes: int) {
    forall h, t, n :: StackedAt(lex, levels, nodes, h, t, n)
  }

  ghost predicate StackedAt(lex: Lexer, levels: int -> ValueParser, nodes: int, h: int, t: string, n: int) {
    h >= 0 && n + 1 <= nodes ==> levels(h)(t, n) == ParseBody(lex, levels(h - 1), SkipSpace(t), n + 1)
  }

  lemma BodyToValue(lex: Lexer, levels: int -> ValueParser, nodes: int, h: int, text: string, v: Json, inner: nat)
    requires Stacked(lex, levels, nodes) && h >= 0 && BodyReads(lex, levels(h - 1), text, v, inner, nodes)
    ensures Reads(levels(h), text, v, inner + 1, nodes)
  {
    forall post, before | Breaks(post) && before + inner + 1 <= nodes
      ensures levels(h)(text + post, before) == Parsed(v, post, before + inner + 1)
    {
      SkipNothing(text + post);
      assert StackedAt(lex, levels, nodes, h, text + post, before);
      assert ParseBody(lex, levels(h - 1), text + post, before + 1) == Parsed(v, post, before + 1 + inner);
    }
  }

  lemma TextBody(lex: Lexer, value: ValueParser, r: string, text: string, rest: string, n: int)
    requires r != "" && r[0] == '\"' && lex.text(r[1..]) == Some((text, rest))
    ensures ParseBody(lex, value, r, n) == Parsed(Str(text), rest, n)
  {}

  lemma QuoteOpens(s: string, post: string)
    ensures (Quote(s) + post)[1..] == Escape(s) + "\"" + post
  {}

  lemma ReadsText(lex: Lexer, value: ValueParser, s: string, nodes: int)
    requires Undoes(lex)
    ensures BodyReads(lex, value, Quote(s), Str(s), 0, nodes)
  {
    forall post, n | Breaks(post)
      ensures ParseBody(lex, value, Quote(s) + post, n) == Parsed(Str(s), post, n)
    {
      QuoteOpens(s, post);
      TextBody(lex, value, Quote(s) + post, s, post, n);
    }
  }

  lemma IntTextStart(n: int)
    ensures IntText(n) != "" && (IntText(n)[0] == '-' || IsDigit(IntText(n)[0]))
  {
    var d := Digits(if n < 0 then -n else n);
    assert IsDigit(d[0]);
  }

  lemma NumberBody(lex: Lexer, value: ValueParser, r: string, i: int, rest: string, n: int)
    requires r != "" && (r[0] == '-' || IsDigit(r[0])) && lex.number(r) == Some((i, rest))
    ensures ParseBody(lex, value, r, n) == Parsed(Int(i), rest, n)
  {}

  lemma ReadsInt(lex: Lexer, value: ValueParser, i: int, nodes: int)
    requires Undoes(lex) && Readable(i)
    ensures BodyReads(lex, value, IntText(i), Int(i), 0, nodes)
  {
    IntTextStart(i);
    forall post, n | Breaks(post)
      ensures ParseBody(lex, value, IntText(i) + post, n) == Parsed(Int(i), post, n)
    {
      NumberBody(lex, value, IntText(i) + post, i, post, n);
    }
  }

  lemma ReadsWord(lex: Lexer, value: ValueParser, word: string, v: Json, nodes: int)
    requires (v == Null && word == "null") || (v == Bool(true) && word == "true") || (v == Bool(false) && word == "false")
    ensures BodyReads(lex, value, word, v, 0, nodes)
  {
    forall post, n | Breaks(post)
      ensures ParseBody(lex, value, word + post, n) == Parsed(v, post, n)
    {
      assert (word + post)[|word|..] == post;
      assert StartsWith(word + post, word);
    }
  }

  lemma OpensArray(lex: Lexer, value: ValueParser, t: string, n: int)
    requires t != "" && !IsSpace(t[0])
    ensures ParseBody(lex, value, "[" + t, n) == if t[0] == ']' then Parsed(Arr([]), t[1..], n) else ParseItems(value, t, [], n)
  {
    SkipNothing(t);
    assert ("[" + t)[1..] == t;
  }

  lemma OpensObject(lex: Lexer, value: ValueParser, t: string, n: int)
    requires t != "" && !IsSpace(t[0])
    ensures ParseBody(lex, value, "{" + t, n)
            == if t[0] == '}' then Parsed(Obj(map[]), t[1..], n) else ParseMembers(KeyAt(lex), value, t, map[], n)
  {
    SkipNothing(t);
    assert ("{" + t)[1..] == t;
  }

  lemma Encloses(open: string, inner: string, close: string, post: string)
    ensures open + inner + close + post == open + (inner + close + post)
  {}

  lemma ReadsArray(lex: Lexer, value: ValueParser, texts: seq<string>, items: seq<Json>, counts: seq<nat>, nodes: int)
    requires |texts| == |items| == |counts|
    requires forall i :: 0 <= i < |items| ==> Reads(value, texts[i], items[i], counts[i], nodes)
    ensures BodyReads(lex, value, "[" + Join(texts) + "]", Arr(items), Sum(counts), nodes)
  {
    forall post, n | Breaks(post) && n + Sum(counts) <= nodes
      ensures ParseBody(lex, value, "[" + Join(texts) + "]" + post, n) == Parsed(Arr(items), post, n + Sum(counts))
    {
      ArrayBody(lex, value, texts, items, counts, post, n, nodes);
    }
  }

  lemma ArrayBody(lex: Lexer, value: ValueParser, texts: seq<string>, items: seq<Json>, counts: seq<nat>, post: string, n: int, nodes: int)
    requires |texts| == |items| == |counts|
    requires forall i :: 0 <= i < |items| ==> Reads(value, texts[i], items[i], counts[i], nodes)
    requires n + Sum(counts) <= nodes
    ensures ParseBody(lex, value, "[" + Join(texts) + "]" + post, n) == Parsed(Arr(items), post, n + Sum(counts))
  {
    var t := Join(texts) + "]" + post;
    Encloses("[", Join(texts), "]", post);
    if items == [] {
      assert t[0] == ']' && t[1..] == post;
      OpensArray(lex, value, t, n);
    } else {
      JoinSplits(texts, "]", post);
      assert Reads(value, texts[0], items[0], counts[0], nodes);
      OpensArray(lex, value, t, n);
      ReadsItems(value, texts, items, counts, [], post, n, nodes);
      assert [] + items == items;
    }
  }

  lemma ReadsObject(lex: Lexer, value: ValueParser, heads: seq<string>, ks: seq<string>, texts: seq<string>, items: seq<Json>, counts: seq<nat>, nodes: int)
    requires |heads| == |ks| == |texts| == |items| == |counts|
    requires forall i :: 0 <= i < |ks| ==> heads[i] != "" && heads[i][0] == '\"' && ReadsKey(KeyAt(lex), heads[i], ks[i])
    requires forall i, j :: 0 <= i < j < |ks| ==> ks[i] != ks[j]
    requires forall i :: 0 <= i < |ks| ==> Reads(value, texts[i], items[i], counts[i], nodes)
    ensures BodyReads(lex, value, "{" + Join(Concat(heads, texts)) + "}", Obj(Listed(map[], ks, items)), Sum(counts), nodes)
  {
    forall post, n | Breaks(post) && n + Sum(counts) <= nodes
      ensures ParseBody(lex, value, "{" + Join(Concat(heads, texts)) + "}" + post, n)
              == Parsed(Obj(Listed(map[], ks, items)), post, n + Sum(counts))
    {
      ObjectBody(lex, value, heads, ks, texts, items, counts, post, n, nodes);
    }
  }

  lemma ObjectBody(lex: Lexer, value: ValueParser, heads: seq<string>, ks: seq<string>, texts: seq<string>, items: seq<Json>, counts: seq<nat>, post: string, n: int, nodes: int)
    requires |heads| == |ks| == |texts| == |items| == |counts|
    requires forall i :: 0 <= i < |ks| ==> heads[i] != "" && heads[i][0] == '\"' && ReadsKey(KeyAt(lex), heads[i], ks[i])
    requires forall i, j :: 0 <= i < j < |ks| ==> ks[i] != ks[j]
    requires forall i :: 0 <= i < |ks| ==> Reads(value, texts[i], items[i], counts[i], nodes)
    requires n + Sum(counts) <= nodes
    ensures ParseBody(lex, value, "{" + Join(Concat(heads, texts)) + "}" + post, n)
            == Parsed(Obj(Listed(map[], ks, items)), post, n + Sum(counts))
  {
    var parts := Concat(heads, texts);
    var t := Join(parts) + "}" + post;
    Encloses("{", Join(parts), "}", post);
    if ks == [] {
      assert t[0] == '}' && t[1..] == post;
      OpensObject(lex, value, t, n);
    } else {
      JoinSplits(parts, "}", post);
      assert t[0] == heads[0][0];
      OpensObject(lex, value, t, n);
      ReadsMembers(KeyAt(lex), value, heads, ks, texts, items, counts, map[], post, n, nodes);
    }
  }

  // ----- counting what was read

  lemma {:induction false} SumIsCountItems(items: seq<Json>, counts: seq<nat>)
    requires |counts| == |items| && forall i :: 0 <= i < |items| ==> counts[i] == Count(items[i])
    ensures Sum(counts) == CountItems(items)
    decreases |items|
  {
    if items != [] {
      var n := |items| - 1;
      SumIsCountItems(items[..n], counts[..n]);
      SumSnoc(counts[..n], counts[n]);
      assert counts == counts[..n] + [counts[n]];
    }
  }

  lemma {:induction false} SumSnoc(counts: seq<nat>, c: nat)
    ensures Sum(counts + [c]) == Sum(counts) + c
  {
    if counts != [] {
      assert (counts + [c])[1..] == counts[1..] + [c];
      SumSnoc(counts[1..], c);
    }
  }

  lemma {:induction false} SumIsCountKeys(v: Json, ks: seq<string>, counts: seq<nat>)
    requires v.Obj? && |counts| == |ks|
    requires forall i :: 0 <= i < |ks| ==> ks[i] in v.fields && counts[i] == Count(v.fields[ks[i]])
    requires forall i, j :: 0 <= i < j < |ks| ==> ks[i] != ks[j]
    ensures (set k | k in ks) <= v.fields.Keys
    ensures Sum(counts) == CountKeys(v, (set k | k in ks))
    decreases |ks|
  {
    if ks != [] {
      SumIsCountKeys(v, ks[1..], counts[1..]);
      CountKeysPick(v, (set k | k in ks), ks[0]);
      assert (set k | k in ks) - {ks[0]} == (set k | k in ks[1..]);
    }
  }

  lemma {:induction false} ListedIsFields(v: Json, acc: map<string, Json>, ks: seq<string>, items: seq<Json>)
    requires v.Obj? && |items| == |ks|
    requires forall i :: 0 <= i < |ks| ==> ks[i] in v.fields && items[i] == v.fields[ks[i]]
    requires forall k :: k in acc ==> k in v.fields && acc[k] == v.fields[k]
    requires v.fields.Keys == acc.Keys + (set k | k in ks)
    ensures Listed(acc, ks, items) == v.fields
    decreases |ks|
  {
    if ks != [] {
      assert (set k | k in ks) == {ks[0]} + (set k | k in ks[1..]);
      ListedIsFields(v, acc[ks[0] := items[0]], ks[1..], items[1..]);
    } else {
      assert acc.Keys == v.fields.Keys;
    }
  }

  // ----- the theorem

  ghost function Texts(items: seq<Json>): seq<string> {
    seq(|items|, i requires 0 <= i < |items| => Canonical(items[i]))
  }

  ghost function Counts(items: seq<Json>): seq<nat> {
    seq(|items|, i requires 0 <= i < |items| => Count(items[i]))
  }

  ghost function FieldsOf(v: Json): seq<Json>
    requires v.Obj?
  {
    var ks := Sorted(v.fields.Keys);
    seq(|ks|, i requires 0 <= i < |ks| => assert ks[i] in ks; v.fields[ks[i]])
  }

  lemma CanonicalArray(items: seq<Json>)
    ensures Canonical(Arr(items)) == "[" + Join(Texts(items)) + "]"
  {
    var texts := seq(|items|, i requires 0 <= i < |items| => Canonical(items[i]));
    assert texts == Texts(items);
  }

  ghost function Heads(ks: seq<string>): seq<string> {
    seq(|ks|, i requires 0 <= i < |ks| => Quote(ks[i]) + ":")
  }

  ghost function ObjectText(v: Json): string
    requires v.Obj?
  {
    "{" + Join(Concat(Heads(Sorted(v.fields.Keys)), Texts(FieldsOf(v)))) + "}"
  }

  lemma CanonicalObject(v: Json)
    requires v.Obj?
    ensures Canonical(v) == ObjectText(v)
  {
    var ks := Sorted(v.fields.Keys);
    var parts := seq(|ks|, i requires 0 <= i < |ks| => assert ks[i] in ks; MemberText(ks[i], Canonical(v.fields[ks[i]])));
    assert parts == Concat(Heads(ks), Texts(FieldsOf(v)));
  }

  /** The parser `h` levels above the deepest reads the canonical form of v back. */
  ghost predicate ReadsBack(levels: int -> ValueParser, nodes: int, v: Json, h: int) {
    Reads(levels(h), Canonical(v), v, Count(v), nodes)
  }

  lemma PrintedReadsBack(levels: int -> ValueParser, nodes: int, text: string, v: Json, count: nat, h: int)
    requires text == Canonical(v) && count == Count(v)
    requires Reads(levels(h), text, v, count, nodes)
    ensures ReadsBack(levels, nodes, v, h)
  {}

  /** Each of the values is read back by `value`. */
  ghost predicate AllRead(value: ValueParser, items: seq<Json>, nodes: int) {
    forall i :: 0 <= i < |items| ==> Reads(value, Texts(items)[i], items[i], Counts(items)[i], nodes)
  }

  lemma PartsRead(levels: int -> ValueParser, nodes: int, items: seq<Json>, h: int)
    requires forall i :: 0 <= i < |items| ==> ReadsBack(levels, nodes, items[i], h)
    ensures AllRead(levels(h), items, nodes)
  {
    forall i | 0 <= i < |items|
      ensures Reads(levels(h), Texts(items)[i], items[i], Counts(items)[i], nodes)
    {
      assert ReadsBack(levels, nodes, items[i], h);
    }
  }

  lemma ArrayReads(lex: Lexer, levels: int -> ValueParser, nodes: int, h: int, items: seq<Json>)
    requires Stacked(lex, levels, nodes) && h >= 0 && AllRead(levels(h - 1), items, nodes)
    ensures Reads(levels(h), "[" + Join(Texts(items)) + "]", Arr(items), Sum(Counts(items)) + 1, nodes)
  {
    ReadsArray(lex, levels(h - 1), Texts(items), items, Counts(items), nodes);
    BodyToValue(lex, levels, nodes, h, "[" + Join(Texts(items)) + "]", Arr(items), Sum(Counts(items)));
  }

  /** The keys and values v lists, in order. */
  ghost predicate Lists(v: Json, ks: seq<string>, items: seq<Json>)
    requires v.Obj?
  {
    && |items| == |ks| && Increasing(ks)
    && (forall i :: 0 <= i < |ks| ==> ks[i] in v.fields && items[i] == v.fields[ks[i]])
    && (set k | k in ks) == v.fields.Keys
  }

  lemma FieldsAreListed(v: Json)
    requires v.Obj?
    ensures Lists(v, Sorted(v.fields.Keys), FieldsOf(v))
  {
    var ks := Sorted(v.fields.Keys);
    SortedIsStrictlyIncreasing(v.fields.Keys);
    forall i | 0 <= i < |ks|
      ensures ks[i] in v.fields && FieldsOf(v)[i] == v.fields[ks[i]]
    {
      assert ks[i] in ks;
    }
  }

  lemma FieldsRead(v: Json, ks: seq<string>, items: seq<Json>)
    requires v.Obj? && Lists(v, ks, items)
    ensures Listed(map[], ks, items) == v.fields
    ensures Count(v) == 1 + Sum(Counts(items))
  {
    ListedIsFields(v, map[], ks, items);
    SumIsCountKeys(v, ks, Counts(items));
  }

  lemma ObjectBodyReads(lex: Lexer, value: ValueParser, v: Json, nodes: int)
    requires Undoes(lex) && v.Obj?
    requires AllRead(value, FieldsOf(v), nodes)
    ensures BodyReads(lex, value, ObjectText(v), v, Sum(Counts(FieldsOf(v))), nodes)
  {
    var ks, items := Sorted(v.fields.Keys), FieldsOf(v);
    HeadsRead(lex, ks);
    FieldsAreListed(v);
    FieldsRead(v, ks, items);
    ReadsObject(lex, value, Heads(ks), ks, Texts(items), items, Counts(items), nodes);
  }

  lemma ObjectReads(lex: Lexer, levels: int -> ValueParser, nodes: int, h: int, v: Json)
    requires Undoes(lex) && Stacked(lex, levels, nodes) && h >= 0 && v.Obj? && AllRead(levels(h - 1), FieldsOf(v), nodes)
    ensures Reads(levels(h), ObjectText(v), v, Sum(Counts(FieldsOf(v))) + 1, nodes)
  {
    ObjectBodyReads(lex, levels(h - 1), v, nodes);
    BodyToValue(lex, levels, nodes, h, ObjectText(v), v, Sum(Counts(FieldsOf(v))));
  }

  lemma ReadsLeaf(lex: Lexer, levels: int -> ValueParser, nodes: int, v: Json, h: int)
    requires Undoes(lex) && Stacked(lex, levels, nodes) && h >= 0
    requires !v.Arr? && !v.Obj? && (v.Int? ==> Readable(v.n))
    ensures ReadsBack(levels, nodes, v, h)
  {
    var value := levels(h - 1);
    if v.Str? {
      ReadsText(lex, value, v.s, nodes);
    } else if v.Int? {
      ReadsInt(lex, value, v.n, nodes);
    } else {
      ReadsWord(lex, value, Canonical(v), v, nodes);
    }
    BodyToValue(lex, levels, nodes, h, Canonical(v), v, 0);
  }

  /** Everything directly inside has the property, one level further down. */
  ghost predicate Inside(good: (Json, int) -> bool, v: Json, h: int) {
    && (v.Int? ==> Readable(v.n))
    && (v.Arr? ==> forall i :: 0 <= i < |v.items| ==> good(v.items[i], h - 1))
    && (v.Obj? ==> forall k :: k in v.fields ==> good(v.fields[k], h - 1))
  }

  /** Induction over values that are shallow and readable. */
  lemma {:induction false} ShallowInduction(good: (Json, int) -> bool, v: Json, h: int)
    requires forall w, d :: d >= 0 && Inside(good, w, d) ==> good(w, d)
    requires Shallow(v, h) && AllReadable(v)
    ensures good(v, h)
    decreases v
  {
    if v.Arr? {
      forall i | 0 <= i < |v.items|
        ensures good(v.items[i], h - 1)
      {
        assert Item(v, i) == v.items[i];
        ShallowInduction(good, v.items[i], h - 1);
      }
    } else if v.Obj? {
      forall k | k in v.fields
        ensures good(v.fields[k], h - 1)
      {
        assert Field(v, k) == v.fields[k];
        ShallowInduction(good, v.fields[k], h - 1);
      }
    }
    assert Inside(good, v, h);
  }

  /** A property of values that lets them be read back one level further down. */
  ghost predicate Suffices(good: Json -> bool, levels: int -> ValueParser, nodes: int, h: int) {
    forall w :: good(w) ==> ReadsBack(levels, nodes, w, h - 1)
  }

  lemma ArrayCount(items: seq<Json>)
    ensures Canonical(Arr(items)) == "[" + Join(Texts(items)) + "]" && Count(Arr(items)) == Sum(Counts(items)) + 1
  {
    CanonicalArray(items);
    SumIsCountItems(items, Counts(items));
  }

  lemma ItemsReadBack(lex: Lexer, levels: int -> ValueParser, nodes: int, good: Json -> bool, items: seq<Json>, h: int)
    requires Stacked(lex, levels, nodes) && h >= 0
    requires Suffices(good, levels, nodes, h) && forall i :: 0 <= i < |items| ==> good(items[i])
    ensures ReadsBack(levels, nodes, Arr(items), h)
  {
    PartsRead(levels, nodes, items, h - 1);
    ArrayReads(lex, levels, nodes, h, items);
    ArrayCount(items);
    PrintedReadsBack(levels, nodes, "[" + Join(Texts(items)) + "]", Arr(items), Sum(Counts(items)) + 1, h);
  }

  /** What holds of every field holds of every listed one. */
  lemma ListedFields(v: Json, good: Json -> bool)
    requires v.Obj? && forall k :: k in v.fields ==> good(v.fields[k])
    ensures forall i :: 0 <= i < |FieldsOf(v)| ==> good(FieldsOf(v)[i])
  {
    FieldsAreListed(v);
  }

  lemma FieldsReadBack(lex: Lexer, levels: int -> ValueParser, nodes: int, good: Json -> bool, v: Json, h: int)
    requires Undoes(lex) && Stacked(lex, levels, nodes) && h >= 0
    requires v.Obj? && Suffices(good, levels, nodes, h) && forall k :: k in v.fields ==> good(v.fields[k])
    ensures ReadsBack(levels, nodes, v, h)
  {
    ListedFields(v, good);
    PartsRead(levels, nodes, FieldsOf(v), h - 1);
    ObjectReads(lex, levels, nodes, h, v);
    ObjectCount(v);
    PrintedReadsBack(levels, nodes, ObjectText(v), v, Sum(Counts(FieldsOf(v))) + 1, h);
  }

  lemma ObjectCount(v: Json)
    requires v.Obj?
    ensures Canonical(v) == ObjectText(v) && Count(v) == Sum(Counts(FieldsOf(v))) + 1
  {
    CanonicalObject(v);
    FieldsAreListed(v);
    FieldsRead(v, Sorted(v.fields.Keys), FieldsOf(v));
  }

  lemma ReadsBackFromInside(lex: Lexer, levels: int -> ValueParser, nodes: int, good: (Json, int) -> bool, v: Json, h: int)
    requires Undoes(lex) && Stacked(lex, levels, nodes) && h >= 0 && Inside(good, v, h)
    requires Suffices(w => good(w, h - 1), levels, nodes, h)
    ensures ReadsBack(levels, nodes, v, h)
  {
    if v.Arr? {
      ItemsReadBack(lex, levels, nodes, w => good(w, h - 1), v.items, h);
    } else if v.Obj? {
      FieldsReadBack(lex, levels, nodes, w => good(w, h - 1), v, h);
    } else {
      ReadsLeaf(lex, levels, nodes, v, h);
    }
  }

  /** The parser reads the canonical form of every value that fits, wherever it stands. */
  lemma ReadsCanonical(lex: Lexer, levels: int -> ValueParser, nodes: int, v: Json, h: int)
    requires Undoes(lex) && Stacked(lex, levels, nodes) && Shallow(v, h) && AllReadable(v)
    ensures ReadsBack(levels, nodes, v, h)
  {
    var good := (w: Json, d: int) => ReadsBack(levels, nodes, w, d);
    forall w, d | d >= 0 && Inside(good, w, d)
      ensures good(w, d)
    {
      ReadsBackFromInside(lex, levels, nodes, good, w, d);
    }
    ShallowInduction(good, v, h);
  }

  function LevelsOf(value: int -> ValueParser, deepest: int): int -> ValueParser {
    h => value(deepest - h)
  }

  lemma LevelsAreStacked(lex: Lexer, lim: Limits, value: int -> ValueParser)
    requires Descends(lex, lim, value)
    ensures Stacked(lex, LevelsOf(value, lim.depth), lim.nodes)
  {
    forall h, t, n
      ensures StackedAt(lex, LevelsOf(value, lim.depth), lim.nodes, h, t, n)
    {
      LevelIsStacked(lex, lim, value, LevelsOf(value, lim.depth), h, t, n);
    }
  }

  lemma LevelIsStacked(lex: Lexer, lim: Limits, value: int -> ValueParser, levels: int -> ValueParser, h: int, t: string, n: int)
    requires OneLevel(lex, lim, value, lim.depth - h, t, n)
    requires levels(h) == value(lim.depth - h) && levels(h - 1) == value(lim.depth - h + 1)
    ensures StackedAt(lex, levels, lim.nodes, h, t, n)
  {}

  lemma HeadsRead(lex: Lexer, ks: seq<string>)
    requires Undoes(lex)
    ensures forall i :: 0 <= i < |ks| ==> Heads(ks)[i] != "" && Heads(ks)[i][0] == '\"' && ReadsKey(KeyAt(lex), Heads(ks)[i], ks[i])
  {
    forall i, after, acc: map<string, Json> | 0 <= i < |ks| && ks[i] !in acc
      ensures KeyAt(lex)(Heads(ks)[i] + after, acc) == Ok((ks[i], after))
    {
      KeyOfPrinted(lex, ks[i], after, acc);
    }
  }

  /** Values whose canonical form may be read back. */
  ghost predicate Storable(v: Json) {
    Shallow(v, MAX_DEPTH) && Count(v) <= MAX_NODES && AllReadable(v) && Utf8Length(Canonical(v)) <= MAX_BYTES
  }

  lemma PrintedIsRead(lex: Lexer, lim: Limits, value: int -> ValueParser, v: Json)
    requires Undoes(lex) && Descends(lex, lim, value)
    requires Shallow(v, lim.depth) && AllReadable(v) && Count(v) <= lim.nodes
    ensures value(0)(Canonical(v), 0) == Parsed(v, "", Count(v))
  {
    var levels, text, count := LevelsOf(value, lim.depth), Canonical(v), Count(v);
    LevelsAreStacked(lex, lim, value);
    ReadsCanonical(lex, levels, lim.nodes, v, lim.depth);
    AtTheEnd(levels(lim.depth), text, v, count, lim.nodes);
    assert levels(lim.depth) == value(0);
  }

  lemma AtTheEnd(value: ValueParser, text: string, v: Json, count: nat, nodes: int)
    requires Reads(value, text, v, count, nodes) && count <= nodes
    ensures value(text, 0) == Parsed(v, "", count)
  {
    assert text + "" == text;
    assert value(text + "", 0) == Parsed(v, "", count);
  }

  lemma ReadsWhole(lex: Lexer, text: string, v: Json, count: nat, lim: Limits)
    requires Parsers(lex, lim)(0)(text, 0) == Parsed(v, "", count)
    ensures ParseAll(lex, text, lim) == Ok(v)
  {}

  /** The parser undoes the printer on every value within the limits. */
  lemma {:induction false} ParserUndoesPrinter(v: Json)
    requires Storable(v)
    ensures ParseText(Canonical(v)) == Ok(v)
  {
    LexerUndoesPrinter();
    ParsersDescend(LEXER, LIMITS);
    PrintedIsRead(LEXER, LIMITS, Parsers(LEXER, LIMITS), v);
    ReadsWhole(LEXER, Canonical(v), v, Count(v), LIMITS);
  }

  /** So the stored text determines the value. */
  lemma {:induction false} CanonicalIsInjective(v: Json, w: Json)
    requires Storable(v) && Storable(w) && Canonical(v) == Canonical(w)
    ensures v == w
  {
    ParserUndoesPrinter(v);
    ParserUndoesPrinter(w);
  }
}
