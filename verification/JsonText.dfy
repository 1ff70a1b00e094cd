/** Strings and integers as JSON text: what the printer writes and what the scanner reads. */
module JsonText {
  import opened Wrappers

  // ----- strings (section 7 of RFC 8259)

  function HexDigit(n: nat): char
    requires n < 16
  {
    if n < 10 then (n + 48) as char else (n + 87) as char
  }

  function HexValue(c: char): Option<nat> {
    var n := c as int;
    if 48 <= n <= 57 then Some(n - 48)
    else if 97 <= n <= 102 then Some(n - 87)
    else if 65 <= n <= 70 then Some(n - 55)
    else None
  }

  /** The code unit written by four hexadecimal digits. */
  function Hex4(r: string): (u: Option<nat>)
    ensures u.Some? ==> u.value < 0x1_0000
  {
    if |r| < 4 then None
    else
      var a, b, c, d := HexValue(r[0]), HexValue(r[1]), HexValue(r[2]), HexValue(r[3]);
      if a.None? || b.None? || c.None? || d.None? then None
      else if a.value >= 16 || b.value >= 16 || c.value >= 16 || d.value >= 16 then None
      else Some(((a.value * 16 + b.value) * 16 + c.value) * 16 + d.value)
  }

  /** The printer escapes the quote, the backslash and the control characters, and nothing else. */
  function EscapeChar(c: char): string {
    var n := c as int;
    if c == '\"' then "\\\""
    else if c == '\\' then "\\\\"
    else if n == 10 then "\\n"
    else if n == 13 then "\\r"
    else if n == 9 then "\\t"
    else if n == 12 then "\\f"
    else if n == 8 then "\\b"
    else if n < 32 then ['\\', 'u', '0', '0', HexDigit(n / 16), HexDigit(n % 16)]
    else [c]
  }

  function Escape(s: string): string {
    if s == "" then "" else EscapeChar(s[0]) + Escape(s[1..])
  }

  function Quote(s: string): string {
    "\"" + Escape(s) + "\""
  }

  function SimpleEscape(e: char): Option<char> {
    match e
    case '\"' => Some('\"')
    case '\\' => Some('\\')
    case '/' => Some('/')
    case 'b' => Some(8 as char)
    case 'f' => Some(12 as char)
    case 'n' => Some('\n')
    case 'r' => Some('\r')
    case 't' => Some('\t')
    case _ => None
  }

  datatype Scanned = Next(c: char, rest: string) | Closed(rest: string) | Bad

  function ScanUnicode(r: string): (x: Scanned)
    requires |r| >= 2
    ensures x.Next? ==> |x.rest| < |r|
    ensures !x.Closed?
  {
    var u := Hex4(r[2..]);
    if u.None? then Bad
    else if 0xD800 <= u.value < 0xDC00 then
      // A high surrogate counts only together with a following escaped low one.
      if |r| < 12 || r[6] != '\\' || r[7] != 'u' then Bad
      else
        var low := Hex4(r[8..]);
        if low.None? || !(0xDC00 <= low.value < 0xE000) then Bad
        else Next((0x1_0000 + (u.value - 0xD800) * 0x400 + (low.value - 0xDC00)) as char, r[12..])
    else if 0xDC00 <= u.value < 0xE000 then Bad
    else Next(u.value as char, r[6..])
  }

  /** The next character of a string literal, its closing quote, or an error. */
  function ScanChar(r: string): (x: Scanned)
    ensures !x.Bad? ==> |x.rest| < |r|
  {
    if r == "" then Bad
    else if r[0] == '\"' then Closed(r[1..])
    else if r[0] == '\\' then
      if |r| < 2 then Bad
      else if r[1] == 'u' then ScanUnicode(r)
      else
        var c := SimpleEscape(r[1]);
        if c.Some? then Next(c.value, r[2..]) else Bad
    else if r[0] as int < 32 then Bad
    else Next(r[0], r[1..])
  }

  /** The rest of a string literal after its opening quote. */
  function ScanString(r: string, acc: string): (x: Option<(string, string)>)
    ensures x.Some? ==> |x.value.1| < |r|
    decreases |r|
  {
    match ScanChar(r)
    case Bad => None
    case Closed(rest) => Some((acc, rest))
    case Next(c, rest) => ScanString(rest, acc + [c])
  }

  lemma HexRoundTrip(n: nat)
    requires n < 16
    ensures HexValue(HexDigit(n)) == Some(n)
  {}

  lemma ScanEscaped(c: char, post: string)
    ensures ScanChar(EscapeChar(c) + post) == Next(c, post)
  {
    var n := c as int;
    var r := EscapeChar(c) + post;
    if n < 32 && n != 8 && n != 9 && n != 10 && n != 12 && n != 13 {
      HexRoundTrip(n / 16);
      HexRoundTrip(n % 16);
      assert r[2..][0] == '0' && r[2..][1] == '0';
      assert r[2..][2] == HexDigit(n / 16) && r[2..][3] == HexDigit(n % 16);
      assert Hex4(r[2..]) == Some(n);
      assert r[6..] == post;
    } else if |EscapeChar(c)| == 1 {
      assert r[1..] == post;
    } else {
      assert r[2..] == post;
    }
  }

  lemma ScanStep(c: char, rest: string, acc: string)
    ensures ScanString(EscapeChar(c) + rest, acc) == ScanString(rest, acc + [c])
  {
    ScanEscaped(c, rest);
  }

  lemma ScanEnd(post: string, acc: string)
    ensures ScanString("\"" + post, acc) == Some((acc, post))
  {
    assert ("\"" + post)[1..] == post;
  }

  lemma EscapeSplits(s: string, close: string)
    requires s != ""
    ensures Escape(s) + close == EscapeChar(s[0]) + (Escape(s[1..]) + close)
  {}

  /** What the escapes need from a string scanner, given the text and what was scanned so far. */
  ghost predicate Steps(scan: (string, string) -> Option<(string, string)>) {
    && (forall c, rest, acc :: scan(EscapeChar(c) + rest, acc) == scan(rest, acc + [c]))
    && (forall post, acc :: scan("\"" + post, acc) == Some((acc, post)))
  }

  lemma {:induction false} ScanEscapes(scan: (string, string) -> Option<(string, string)>, s: string, acc: string, post: string)
    requires Steps(scan)
    ensures scan(Escape(s) + ("\"" + post), acc) == Some((acc + s, post))
    decreases |s|
  {
    if s == "" {
      assert Escape(s) + ("\"" + post) == "\"" + post;
      assert acc + s == acc;
    } else {
      EscapeSplits(s, "\"" + post);
      ScanEscapes(scan, s[1..], acc + [s[0]], post);
      assert acc + [s[0]] + s[1..] == acc + s;
    }
  }

  /** Scanning what was escaped gives the string back. */
  lemma ScanQuoted(s: string, acc: string, post: string)
    ensures ScanString(Escape(s) + "\"" + post, acc) == Some((acc + s, post))
  {
    var scan := (r, a) => ScanString(r, a);
    forall c, rest, a
      ensures scan(EscapeChar(c) + rest, a) == scan(rest, a + [c])
    {
      ScanStep(c, rest, a);
    }
    forall rest, a
      ensures scan("\"" + rest, a) == Some((a, rest))
    {
      ScanEnd(rest, a);
    }
    assert Escape(s) + "\"" + post == Escape(s) + ("\"" + post);
    ScanEscapes(scan, s, acc, post);
  }

  // ----- integers

  const MAX_TOKEN := 19
  const TWO_63 := 0x8000_0000_0000_0000

  predicate IsDigit(c: char) { '0' <= c <= '9' }

  function DigitChar(n: nat): char
    requires n < 10
  {
    (n + 48) as char
  }

  function Digits(n: nat): (s: string)
    ensures |s| > 0 && (forall i :: 0 <= i < |s| ==> IsDigit(s[i]))
    ensures s[0] == '0' <==> n == 0
  {
    if n < 10 then [DigitChar(n)] else Digits(n / 10) + [DigitChar(n % 10)]
  }

  function IntText(n: int): string {
    if n < 0 then "-" + Digits(-n) else Digits(n)
  }

  function DigitValue(c: char): nat
    requires IsDigit(c)
  {
    c as int - 48
  }

  function ToNat(s: string): nat
    requires forall i :: 0 <= i < |s| ==> IsDigit(s[i])
  {
    if s == "" then 0 else 10 * ToNat(s[..|s| - 1]) + DigitValue(s[|s| - 1])
  }

  lemma {:induction false} ToNatDigits(n: nat)
    ensures ToNat(Digits(n)) == n
  {
    if n >= 10 {
      assert Digits(n)[..|Digits(n)| - 1] == Digits(n / 10);
      ToNatDigits(n / 10);
    }
  }

  /** How many digits the text starts with. */
  function DigitRun(r: string): (k: nat)
    ensures k <= |r|
    ensures forall i :: 0 <= i < k ==> IsDigit(r[i])
    ensures k < |r| ==> !IsDigit(r[k])
  {
    if r == "" || !IsDigit(r[0]) then 0 else 1 + DigitRun(r[1..])
  }

  /** Length of the integer token the text starts with; zero when there is none. */
  function TokenLength(r: string): (k: nat)
    ensures k <= |r|
    ensures k > 0 && r[0] != '-' ==> forall i :: 0 <= i < k ==> IsDigit(r[i])
    ensures k > 0 && r[0] == '-' ==> k > 1 && forall i :: 1 <= i < k ==> IsDigit(r[i])
  {
    var sign := if r != "" && r[0] == '-' then 1 else 0;
    if |r| == sign || !IsDigit(r[sign]) then 0
    else if r[sign] == '0' then sign + 1
    else
      var run := DigitRun(r[sign..]);
      assert forall i :: 0 <= i < run ==> r[sign + i] == r[sign..][i];
      sign + run
  }

  function TokenValue(r: string): int
    requires TokenLength(r) > 0
  {
    var k := TokenLength(r);
    if r[0] == '-' then 0 - ToNat(r[1..k]) else ToNat(r[..k])
  }

  /** The integer the text starts with, under the token and 64-bit limits. */
  function ScanInt(r: string): (x: Option<(int, string)>)
    ensures x.Some? ==> |x.value.1| < |r| && -TWO_63 <= x.value.0 < TWO_63
  {
    var k := TokenLength(r);
    if k == 0 || k > MAX_TOKEN then None
    else if !(-TWO_63 <= TokenValue(r) < TWO_63) then None
    else Some((TokenValue(r), r[k..]))
  }

  /** Integers the scanner accepts. */
  predicate Readable(n: int) {
    |IntText(n)| <= MAX_TOKEN && -TWO_63 <= n < TWO_63
  }

  predicate Breaks(post: string) { post == "" || !IsDigit(post[0]) }

  lemma {:induction false} DigitRunAll(d: string, post: string)
    requires (forall i :: 0 <= i < |d| ==> IsDigit(d[i])) && Breaks(post)
    ensures DigitRun(d + post) == |d|
    decreases |d|
  {
    if d == "" {
      assert d + post == post;
    } else {
      assert (d + post)[1..] == d[1..] + post;
      DigitRunAll(d[1..], post);
    }
  }

  lemma TokenOfDigits(n: nat, post: string)
    requires Breaks(post)
    ensures TokenLength(Digits(n) + post) == |Digits(n)|
    ensures TokenLength("-" + Digits(n) + post) == 1 + |Digits(n)|
  {
    var d := Digits(n);
    DigitRunAll(d, post);
    var plain, signed := d + post, "-" + d + post;
    assert plain[0..] == plain && plain[0] == d[0];
    assert signed[1..] == plain && signed[1] == d[0] && signed[0] == '-';
    if n == 0 {
      assert d == "0";
    }
  }

  lemma TokenOfPrintedInt(n: int, post: string)
    requires Breaks(post)
    ensures TokenLength(IntText(n) + post) == |IntText(n)|
    ensures TokenValue(IntText(n) + post) == n
  {
    var d := Digits(if n < 0 then -n else n);
    TokenOfDigits(if n < 0 then -n else n, post);
    ToNatDigits(if n < 0 then -n else n);
    if n < 0 {
      assert ("-" + d + post)[1..1 + |d|] == d;
    } else {
      assert (d + post)[..|d|] == d;
      assert d[0] != '-';
    }
  }

  /** Scanning a printed integer gives it back, exactly when it is readable. */
  lemma ScanPrintedInt(n: int, post: string)
    requires Breaks(post)
    ensures ScanInt(IntText(n) + post) == if Readable(n) then Some((n, post)) else None
  {
    TokenOfPrintedInt(n, post);
    assert (IntText(n) + post)[|IntText(n)|..] == post;
  }

  function Pow10(k: nat): nat {
    if k == 0 then 1 else 10 * Pow10(k - 1)
  }

  lemma Pow10Values()
    ensures Pow10(18) == 1_000_000_000_000_000_000 && Pow10(19) == 10_000_000_000_000_000_000
  {
    assert Pow10(4) == 10_000;
    assert Pow10(8) == 100_000_000;
    assert Pow10(12) == 1_000_000_000_000;
    assert Pow10(16) == 10_000_000_000_000_000;
  }

  lemma {:induction false} ToNatBound(s: string)
    requires forall i :: 0 <= i < |s| ==> IsDigit(s[i])
    ensures ToNat(s) < Pow10(|s|)
  {
    if s != "" {
      ToNatBound(s[..|s| - 1]);
    }
  }

  lemma {:induction false} Pow10Grows(j: nat, k: nat)
    requires j <= k
    ensures 0 < Pow10(j) <= Pow10(k)
  {
    if j < k {
      Pow10Grows(j, k - 1);
    } else if j > 0 {
      Pow10Grows(j - 1, j - 1);
    }
  }

  /** A positive integer has as many digits as powers of ten it reaches. */
  lemma {:induction false} DigitsLength(n: nat, k: nat)
    requires n > 0
    ensures |Digits(n)| <= k <==> n < Pow10(k)
    decreases n
  {
    if k == 0 {
    } else if n < 10 {
      Pow10Grows(1, k);
      assert Pow10(1) == 10;
    } else if k == 1 {
      assert Pow10(1) == 10;
    } else {
      DigitsLength(n / 10, k - 1);
    }
  }

  /** The integers that survive printing and reading: one-sided, because a sign uses up one of the 19 characters. */
  lemma ReadableExactly(n: int)
    ensures Readable(n) <==> -1_000_000_000_000_000_000 < n < TWO_63
  {
    Pow10Values();
    if n < 0 {
      DigitsLength(-n, 18);
    } else if n > 0 {
      DigitsLength(n, 19);
    }
  }

  /** With the token limit in force the lower 64-bit test can never fail. */
  lemma LowerBoundTestIsUnreachable(r: string)
    requires 0 < TokenLength(r) <= MAX_TOKEN
    ensures TokenValue(r) > -TWO_63
  {
    var k := TokenLength(r);
    if r[0] == '-' {
      ToNatBound(r[1..k]);
      Pow10Grows(k - 1, 18);
      Pow10Values();
    }
  }

  /** The upper one can: 2^63 has 19 digits. */
  lemma UpperBoundTestIsReachable()
    ensures TokenLength(IntText(TWO_63)) == MAX_TOKEN && TokenValue(IntText(TWO_63)) == TWO_63
  {
    Pow10Values();
    DigitsLength(TWO_63, 18);
    DigitsLength(TWO_63, 19);
    TokenOfPrintedInt(TWO_63, "");
    assert IntText(TWO_63) + "" == IntText(TWO_63);
  }
}
