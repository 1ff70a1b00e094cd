/**
 What a JSON text means, by the productions of RFC 8259 rather than by a parser: which
 texts spell a character, a string, an integer and a value. The string and integer
 scanners are shown to read exactly these texts.

 A relation here says that some text means something and is followed by the rest. It
 looks ahead nowhere and knows no limits; where a production leaves a choice, such as
 how many blanks to take or in which order members come, so does the relation. Depth is
 counted only to make the definition well-founded.
 */
module JsonGrammar {
  import opened Wrappers
  import opened JsonText
  import opened JsonValues
  import opened JsonParser

  // ----- characters (section 7)

  const LOWER := "0123456789abcdef"
  const UPPER := "0123456789ABCDEF"

  predicate IsHex(c: char, n: nat)
    requires n < 16
  {
    c == LOWER[n] || c == UPPER[n]
  }

  /** A backslash, a u and the four digits of a 16-bit code unit. */
  predicate Unit(t: string, u: nat) {
    && |t| == 6 && t[0] == '\\' && t[1] == 'u' && u < 0x1_0000
    && IsHex(t[2], u / 4096) && IsHex(t[3], u / 256 % 16) && IsHex(t[4], u / 16 % 16) && IsHex(t[5], u % 16)
  }

  /** The two-character escapes. */
  predicate Abbreviates(e: char, c: char) {
    || (e == c && (e == '\"' || e == '\\' || e == '/'))
    || (e == 'b' && c as int == 0x08) || (e == 'f' && c as int == 0x0C) || (e == 'n' && c as int == 0x0A)
    || (e == 'r' && c as int == 0x0D) || (e == 't' && c as int == 0x09)
  }

  /** The two surrogates of a code point. */
  function High(n: int): nat
    requires n >= 0x1_0000
  {
    0xD800 + (n - 0x1_0000) / 0x400
  }

  function Low(n: int): nat
    requires n >= 0x1_0000
  {
    0xDC00 + (n - 0x1_0000) % 0x400
  }

  predicate Plain(c: char) { c != '\"' && c != '\\' && c as int >= 0x20 }

  /** The text spells the character inside a string; beyond the 16-bit plane as a surrogate pair. */
  predicate Spells(t: string, c: char) {
    var n := c as int;
    || (|t| == 1 && t[0] == c && Plain(c))
    || (|t| == 2 && t[0] == '\\' && Abbreviates(t[1], c))
    || (n < 0x1_0000 && Unit(t, n))
    || (n >= 0x1_0000 && |t| == 12 && Unit(t[..6], High(n)) && Unit(t[6..], Low(n)))
  }

  lemma HexExactly(c: char, n: nat)
    requires n < 16
    ensures HexValue(c) == Some(n) <==> IsHex(c, n)
  {}

  lemma HexIsSmall(c: char)
    ensures HexValue(c).Some? ==> HexValue(c).value < 16
  {}

  lemma LowDigit(u: nat, rest: nat, d: nat)
    requires d < 16
    ensures u == rest * 16 + d <==> rest == u / 16 && d == u % 16
  {}

  lemma DigitsOf(u: nat, a: nat, b: nat, c: nat, d: nat)
    requires a < 16 && b < 16 && c < 16 && d < 16
    ensures u == ((a * 16 + b) * 16 + c) * 16 + d <==>
              u < 0x1_0000 && a == u / 4096 && b == u / 256 % 16 && c == u / 16 % 16 && d == u % 16
  {
    LowDigit(u, (a * 16 + b) * 16 + c, d);
    LowDigit(u / 16, a * 16 + b, c);
    LowDigit(u / 256, a, b);
    assert u / 16 / 16 == u / 256 && u / 256 / 16 == u / 4096;
  }

  /** Four hexadecimal digits, of either case, are read as the code unit they write, whatever follows. */
  lemma Hex4Exactly(r: string, u: nat)
    requires |r| >= 6 && r[0] == '\\' && r[1] == 'u'
    ensures Hex4(r[2..]) == Some(u) <==> Unit(r[..6], u)
  {
    var h, t := r[2..], r[..6];
    assert h[0] == t[2] && h[1] == t[3] && h[2] == t[4] && h[3] == t[5];
    var a, b, c, d := HexValue(t[2]), HexValue(t[3]), HexValue(t[4]), HexValue(t[5]);
    HexIsSmall(t[2]);
    HexIsSmall(t[3]);
    HexIsSmall(t[4]);
    HexIsSmall(t[5]);
    if a.Some? && b.Some? && c.Some? && d.Some? {
      DigitsOf(u, a.value, b.value, c.value, d.value);
    }
    if u < 0x1_0000 {
      HexExactly(t[2], u / 4096);
      HexExactly(t[3], u / 256 % 16);
      HexExactly(t[4], u / 16 % 16);
      HexExactly(t[5], u % 16);
    }
  }

  lemma SimpleExactly(e: char, c: char)
    ensures SimpleEscape(e) == Some(c) <==> Abbreviates(e, c)
  {}

  lemma NoUnit(r: string)
    requires |r| >= 2 && |r| < 6
    ensures Hex4(r[2..]) == None
  {}

  lemma SpelledPlainly(r: string, c: char)
    requires r != "" && r[0] == c && Plain(c)
    ensures ScanChar(r) == Next(c, r[1..])
  {}

  lemma SpelledShortly(r: string, c: char)
    requires |r| >= 2 && r[0] == '\\' && Abbreviates(r[1], c)
    ensures ScanChar(r) == Next(c, r[2..])
  {
    SimpleExactly(r[1], c);
  }

  lemma SpelledByUnit(r: string, c: char)
    requires |r| >= 6 && c as int < 0x1_0000 && Unit(r[..6], c as int)
    ensures ScanChar(r) == Next(c, r[6..])
  {
    var t := r[..6];
    assert r[0] == t[0] && r[1] == t[1];
    Hex4Exactly(r, c as int);
  }

  lemma PairIsScanned(r: string, high: nat, low: nat)
    requires |r| >= 12 && r[0] == r[6] == '\\' && r[1] == r[7] == 'u'
    requires Hex4(r[2..]) == Some(high) && Hex4(r[8..]) == Some(low) && 0xD800 <= high < 0xDC00 && 0xDC00 <= low < 0xE000
    ensures ScanChar(r) == Next((0x1_0000 + (high - 0xD800) * 0x400 + (low - 0xDC00)) as char, r[12..])
  {}

  lemma PairJoins(n: nat)
    requires 0x1_0000 <= n < 0x11_0000
    ensures 0xD800 <= High(n) < 0xDC00 && 0xDC00 <= Low(n) < 0xE000
    ensures 0x1_0000 + (High(n) - 0xD800) * 0x400 + (Low(n) - 0xDC00) == n
  {}

  lemma PairHex(r: string, high: nat, low: nat)
    requires |r| >= 12 && Unit(r[..6], high) && Unit(r[6..12], low)
    ensures r[0] == r[6] == '\\' && r[1] == r[7] == 'u' && Hex4(r[2..]) == Some(high) && Hex4(r[8..]) == Some(low)
  {
    var first, second, next := r[..6], r[6..12], r[6..];
    assert r[0] == first[0] && r[1] == first[1] && r[6] == second[0] && r[7] == second[1];
    assert next[0] == r[6] && next[1] == r[7] && next[..6] == second && next[2..] == r[8..];
    Hex4Exactly(r, high);
    Hex4Exactly(next, low);
  }

  lemma SpelledByPair(r: string, c: char)
    requires |r| >= 12 && c as int >= 0x1_0000
    requires Unit(r[..6], High(c as int)) && Unit(r[6..12], Low(c as int))
    ensures ScanChar(r) == Next(c, r[12..])
  {
    var high, low := High(c as int), Low(c as int);
    PairHex(r, high, low);
    PairJoins(c as int);
    PairIsScanned(r, high, low);
  }

  /** Every spelling of a character, followed by any text, is scanned as that character. */
  lemma SpelledIsScanned(r: string, k: nat, c: char)
    requires k <= |r| && Spells(r[..k], c)
    ensures k > 0 && ScanChar(r) == Next(c, r[k..])
  {
    var t := r[..k];
    if k == 1 {
      assert t[0] == r[0];
      SpelledPlainly(r, c);
    } else if k == 2 {
      assert t[0] == r[0] && t[1] == r[1];
      SpelledShortly(r, c);
    } else if k == 6 {
      SpelledByUnit(r, c);
    } else {
      assert t[..6] == r[..6] && t[6..] == r[6..12];
      SpelledByPair(r, c);
    }
  }

  lemma PairParts(high: nat, low: nat, n: nat)
    requires 0xD800 <= high < 0xDC00 && 0xDC00 <= low < 0xE000
    requires n == 0x1_0000 + (high - 0xD800) * 0x400 + (low - 0xDC00)
    ensures n >= 0x1_0000 && High(n) == high && Low(n) == low
  {}

  lemma PairShape(r: string, high: nat) returns (low: nat)
    requires |r| >= 2 && ScanUnicode(r).Next?
    requires Hex4(r[2..]) == Some(high) && 0xD800 <= high < 0xDC00
    ensures |r| >= 12 && r[6] == '\\' && r[7] == 'u' && Hex4(r[8..]) == Some(low) && 0xDC00 <= low < 0xE000
    ensures ScanUnicode(r).c as int == 0x1_0000 + (high - 0xD800) * 0x400 + (low - 0xDC00)
    ensures ScanUnicode(r).rest == r[12..]
  {
    low := Hex4(r[8..]).value;
  }

  lemma PairUnits(r: string, high: nat, low: nat)
    requires |r| >= 12 && r[0] == r[6] == '\\' && r[1] == r[7] == 'u'
    requires Hex4(r[2..]) == Some(high) && Hex4(r[8..]) == Some(low)
    ensures Unit(r[..12][..6], high) && Unit(r[..12][6..], low)
  {
    var next, t := r[6..], r[..12];
    assert next[2..] == r[8..] && next[0] == r[6] && next[1] == r[7];
    Hex4Exactly(r, high);
    Hex4Exactly(next, low);
    assert t[..6] == r[..6] && t[6..] == next[..6];
  }

  lemma PairSpells(t: string, high: nat, low: nat, c: char)
    requires |t| == 12 && Unit(t[..6], high) && Unit(t[6..], low)
    requires c as int >= 0x1_0000 && High(c as int) == high && Low(c as int) == low
    ensures Spells(t, c)
  {}

  lemma PairIsSpelled(r: string, high: nat)
    requires |r| >= 2 && r[0] == '\\' && r[1] == 'u' && ScanUnicode(r).Next?
    requires Hex4(r[2..]) == Some(high) && 0xD800 <= high < 0xDC00
    ensures |r| >= 12 && Spells(r[..12], ScanUnicode(r).c) && ScanUnicode(r).rest == r[12..]
  {
    var low := PairShape(r, high);
    PairUnits(r, high, low);
    PairParts(high, low, ScanUnicode(r).c as int);
    PairSpells(r[..12], high, low, ScanUnicode(r).c);
  }

  lemma UnicodeIsSpelled(r: string)
    requires |r| >= 2 && r[0] == '\\' && r[1] == 'u' && ScanUnicode(r).Next?
    ensures var x := ScanUnicode(r); var k := |r| - |x.rest|; Spells(r[..k], x.c) && x.rest == r[k..]
  {
    var u := Hex4(r[2..]);
    if 0xD800 <= u.value < 0xDC00 {
      PairIsSpelled(r, u.value);
    } else {
      Hex4Exactly(r, u.value);
    }
  }

  /** And what is scanned as a character is one of its spellings. */
  lemma ScannedIsSpelled(r: string)
    requires ScanChar(r).Next?
    ensures var x := ScanChar(r); var k := |r| - |x.rest|; 0 < k && Spells(r[..k], x.c) && x.rest == r[k..]
  {
    if r[0] == '\\' {
      if r[1] == 'u' {
        UnicodeIsSpelled(r);
      } else {
        SimpleExactly(r[1], ScanChar(r).c);
      }
    }
  }

  /** The text starts with a spelling of the character and continues with the rest. */
  ghost predicate Starts(r: string, c: char, rest: string) {
    exists k :: 0 <= k <= |r| && Spells(r[..k], c) && r[k..] == rest
  }

  /**
   The scanner reads exactly the spellings: a lone surrogate, a raw control character, an
   unknown escape and a text that ends early have none and are refused.
   */
  lemma CharExactly(r: string, c: char, rest: string)
    ensures ScanChar(r) == Next(c, rest) <==> Starts(r, c, rest)
    ensures ScanChar(r) == Closed(rest) <==> r == "\"" + rest
    ensures ScanChar(r) == Bad <==> !(r != "" && r[0] == '\"') && forall d, after :: !Starts(r, d, after)
  {
    forall d, after | Starts(r, d, after)
      ensures ScanChar(r) == Next(d, after)
    {
      var k :| 0 <= k <= |r| && Spells(r[..k], d) && r[k..] == after;
      SpelledIsScanned(r, k, d);
    }
    if ScanChar(r).Next? {
      ScannedIsSpelled(r);
      assert Starts(r, ScanChar(r).c, ScanChar(r).rest);
    }
    assert r != "" && r[0] == '\"' ==> r == "\"" + r[1..];
    assert ("\"" + rest)[1..] == rest;
  }

  lemma PrintedSpells(c: char)
    ensures Spells(EscapeChar(c), c)
  {
    var t := EscapeChar(c);
    ScanEscaped(c, "");
    assert t + "" == t;
    ScannedIsSpelled(t);
    assert t[..|t|] == t;
  }

  /** Control characters and the two special ones have no plain spelling, and the abbreviated ones are abbreviated. */
  lemma PrintedLength(c: char)
    ensures |EscapeChar(c)| == 1 <==> Plain(c)
    ensures EscapeChar(c) == [c] <==> Plain(c)
    ensures |EscapeChar(c)| > 2 ==> |EscapeChar(c)| == 6 && forall e :: !Abbreviates(e, c)
  {}

  lemma SpellingLength(t: string, c: char)
    requires Spells(t, c)
    ensures |t| == 1 || |t| == 2 || |t| == 6 || |t| == 12
    ensures |t| == 1 ==> Plain(c)
    ensures |t| == 2 ==> Abbreviates(t[1], c)
  {}

  /** The printer writes a spelling of every character, and none is shorter. */
  lemma PrintsTheShortest(c: char, t: string)
    ensures Spells(EscapeChar(c), c)
    ensures Spells(t, c) ==> |EscapeChar(c)| <= |t|
    ensures EscapeChar(c) == [c] <==> Plain(c)
  {
    PrintedSpells(c);
    PrintedLength(c);
    if Spells(t, c) {
      SpellingLength(t, c);
    }
  }

  // ----- strings

  /** After the opening quote: spellings of the characters in turn, and the closing quote. */
  ghost predicate TextBody(r: string, s: string, rest: string)
    decreases |s|
  {
    if s == "" then r == "\"" + rest
    else exists after :: Starts(r, s[0], after) && TextBody(after, s[1..], rest)
  }

  lemma {:induction false} BodyIsScanned(r: string, s: string, rest: string, acc: string)
    requires TextBody(r, s, rest)
    ensures ScanString(r, acc) == Some((acc + s, rest))
    decreases |s|
  {
    if s == "" {
      CharExactly(r, ' ', rest);
      assert acc + s == acc;
    } else {
      var after :| Starts(r, s[0], after) && TextBody(after, s[1..], rest);
      CharExactly(r, s[0], after);
      BodyIsScanned(after, s[1..], rest, acc + [s[0]]);
      assert acc + [s[0]] + s[1..] == acc + s;
    }
  }

  lemma {:induction false} ScannedIsBody(r: string, acc: string)
    requires ScanString(r, acc).Some?
    ensures var (s, rest) := ScanString(r, acc).value; acc <= s && TextBody(r, s[|acc|..], rest)
    decreases |r|
  {
    var x := ScanChar(r);
    var (s, rest) := ScanString(r, acc).value;
    if x.Closed? {
      CharExactly(r, ' ', rest);
      assert s[|acc|..] == "";
    } else {
      CharExactly(r, x.c, x.rest);
      ScannedIsBody(x.rest, acc + [x.c]);
      var tail := s[|acc|..];
      assert tail[0] == x.c && tail[1..] == s[|acc| + 1..];
    }
  }

  /** The string scanner reads exactly the bodies of string literals, and what they spell. */
  lemma StringExactly(r: string, s: string, rest: string)
    ensures ScanString(r, "") == Some((s, rest)) <==> TextBody(r, s, rest)
  {
    if TextBody(r, s, rest) {
      BodyIsScanned(r, s, rest, "");
      assert "" + s == s;
    }
    if ScanString(r, "") == Some((s, rest)) {
      ScannedIsBody(r, "");
      assert s[0..] == s;
    }
  }

  // ----- integers (section 6, without fraction and exponent)

  /** The texts of an integer: no leading zeros, no plus sign, but a zero may be negative. */
  predicate Denotes(t: string, n: int) {
    t == IntText(n) || (t == "-0" && n == 0)
  }

  lemma {:induction false} DigitsOfToNat(s: string)
    requires s != "" && (forall i :: 0 <= i < |s| ==> IsDigit(s[i])) && (s[0] != '0' || |s| == 1)
    ensures Digits(ToNat(s)) == s
  {
    var front, last := s[..|s| - 1], s[|s| - 1];
    if |s| > 1 {
      DigitsOfToNat(front);
      PositiveValue(front);
      assert s == front + [last];
    } else {
      assert front == "";
      assert s == [last];
    }
  }

  lemma {:induction false} PositiveValue(s: string)
    requires s != "" && (forall i :: 0 <= i < |s| ==> IsDigit(s[i])) && s[0] != '0'
    ensures ToNat(s) > 0
  {
    if |s| > 1 {
      PositiveValue(s[..|s| - 1]);
    } else {
      assert s[..0] == "";
    }
  }

  /** A token is a text of its value, and it is the longest: it is not continued by a digit unless it is a zero. */
  lemma TokenDenotes(r: string)
    requires TokenLength(r) > 0
    ensures var t := r[..TokenLength(r)]; Denotes(t, TokenValue(r)) && (Breaks(r[|t|..]) || t == "0" || t == "-0")
  {
    var k := TokenLength(r);
    var t := r[..k];
    if r[0] == '-' {
      var d := r[1..k];
      assert t == "-" + d;
      TokenDigits(r, 1);
      DigitsOfToNat(d);
      if d[0] != '0' {
        PositiveValue(d);
      } else {
        assert ToNat(d[..0]) == 0;
      }
    } else {
      TokenDigits(r, 0);
      DigitsOfToNat(t);
    }
  }

  lemma TokenDigits(r: string, sign: nat)
    requires TokenLength(r) > 0 && sign == if r[0] == '-' then 1 else 0
    ensures var d := r[sign..TokenLength(r)];
            && d != "" && (forall i :: 0 <= i < |d| ==> IsDigit(d[i])) && (d[0] != '0' || |d| == 1)
            && (Breaks(r[TokenLength(r)..]) || d == "0")
  {
    var k := TokenLength(r);
    var run := DigitRun(r[sign..]);
    if r[sign] != '0' {
      assert k == sign + run;
      assert run < |r[sign..]| ==> r[sign..][run] == r[k];
    } else {
      assert r[sign..k] == "0";
    }
  }

  lemma NegativeZero(post: string)
    requires Breaks(post)
    ensures TokenLength("-0" + post) == 2 && TokenValue("-0" + post) == 0
  {
    assert ("-0" + post)[1..2] == "0";
    assert "0"[..0] == "";
  }

  /** The integer scanner reads exactly the texts of the readable integers. */
  lemma IntExactly(t: string, post: string, n: int)
    requires Breaks(post)
    ensures ScanInt(t + post) == Some((n, post)) <==> Denotes(t, n) && Readable(n)
  {
    var r := t + post;
    if Denotes(t, n) {
      if t == IntText(n) {
        ScanPrintedInt(n, post);
      } else {
        NegativeZero(post);
        ReadableExactly(0);
        assert r[2..] == post;
      }
    }
    if ScanInt(r) == Some((n, post)) {
      TokenDenotes(r);
      assert |r| - |post| == |t|;
      assert r[..TokenLength(r)] == t by {
        assert |r[TokenLength(r)..]| == |post|;
      }
      if t == IntText(n) {
        ScanPrintedInt(n, post);
      } else {
        ReadableExactly(0);
      }
    }
  }

  // ----- values (sections 2 to 5)

  /** Some text means a value and is followed by the rest. */
  type Reading = (string, Json, string) -> bool

  predicate Blank(c: char) { c as int == 0x20 || c as int == 0x09 || c as int == 0x0A || c as int == 0x0D }

  ghost predicate Blanks(text: string, rest: string) {
    exists k :: 0 <= k <= |text| && (forall i :: 0 <= i < k ==> Blank(text[i])) && text[k..] == rest
  }

  ghost predicate IntegerText(text: string, n: int, rest: string) {
    exists t :: Denotes(t, n) && text == t + rest
  }

  ghost predicate StringText(text: string, s: string, rest: string) {
    text != "" && text[0] == '\"' && TextBody(text[1..], s, rest)
  }

  ghost predicate Scalar(text: string, v: Json, rest: string) {
    match v
    case Null => text == "null" + rest
    case Bool(b) => text == (if b then "true" else "false") + rest
    case Int(n) => IntegerText(text, n, rest)
    case Str(s) => StringText(text, s, rest)
    case _ => false
  }

  /** The items of an array with commas between them, up to and including its bracket. */
  ghost predicate Elements(inner: Reading, text: string, items: seq<Json>, rest: string)
    requires items != []
    decreases |items|
  {
    exists a, b :: inner(text, items[0], a) && Blanks(a, b)
      && if |items| == 1 then b == "]" + rest else b != "" && b[0] == ',' && Elements(inner, b[1..], items[1..], rest)
  }

  /** A key and its colon. */
  ghost predicate Name(text: string, k: string, rest: string) {
    exists a, b, c :: Blanks(text, a) && StringText(a, k, b) && Blanks(b, c) && c == ":" + rest
  }

  /** Some text means a key with its value and is followed by the rest. */
  type MemberReading = (string, string, Json, string) -> bool

  ghost predicate Member(inner: Reading, text: string, k: string, v: Json, rest: string) {
    exists a :: Name(text, k, a) && inner(a, v, rest)
  }

  ghost function MemberOf(inner: Reading): MemberReading {
    (text, k, v, rest) => Member(inner, text, k, v, rest)
  }

  /** The members of an object in any order, none of them twice, up to and including its brace. */
  ghost predicate Members(member: MemberReading, text: string, fields: map<string, Json>, rest: string)
    requires fields != map[]
    decreases |fields|
  {
    exists k, a, b :: k in fields && member(text, k, fields[k], a) && Blanks(a, b)
      && if fields - {k} == map[] then b == "}" + rest
         else b != "" && b[0] == ',' && Members(member, b[1..], fields - {k}, rest)
  }

  ghost predicate Empty(text: string, close: char, rest: string) {
    exists a :: Blanks(text, a) && a == [close] + rest
  }

  ghost predicate Value(inner: Reading, text: string, v: Json, rest: string) {
    match v
    case Arr(items) =>
      text != "" && text[0] == '[' && if items == [] then Empty(text[1..], ']', rest) else Elements(inner, text[1..], items, rest)
    case Obj(fields) =>
      text != "" && text[0] == '{' && if fields == map[] then Empty(text[1..], '}', rest) else Members(MemberOf(inner), text[1..], fields, rest)
    case _ => Scalar(text, v, rest)
  }

  /** A value after any blanks, nested less than h deep. */
  ghost predicate Derives(h: nat, text: string, v: Json, rest: string)
    decreases h, 0
  {
    h > 0 && exists a :: Blanks(text, a) && Value(Within(h - 1), a, v, rest)
  }

  ghost function Within(h: nat): Reading
    decreases h, 1
  {
    (text, v, rest) => Derives(h, text, v, rest)
  }

  /** The whole text is one value with blanks around it. */
  ghost predicate Document(text: string, v: Json) {
    exists h: nat, b :: Derives(h, text, v, b) && Blanks(b, "")
  }
}
