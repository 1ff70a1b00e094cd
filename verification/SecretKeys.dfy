/** The recogniser of secret-bearing keys: a base name followed by any number of qualifiers. */
module SecretKeys {
  import opened Wrappers

  const BASES: set<string> := {
    "authorization", "cookie", "setcookie", "apikey", "xapikey", "bearer", "bearertoken", "accesstoken", "refreshtoken",
    "clientsecret", "password", "passwd", "session", "sessionid", "sessiontoken"
  }

  const QUALIFIERS: seq<string> := ["material", "header", "secret", "token", "value"]

  predicate IsKept(c: char) {
    'a' <= c <= 'z' || '0' <= c <= '9'
  }

  /** A lower-cased key without anything but letters and digits. */
  function Normalize(key: string): string {
    if key == "" then "" else (if IsKept(key[0]) then [key[0]] else "") + Normalize(key[1..])
  }

  predicate StartsWith(s: string, p: string) {
    |p| <= |s| && s[..|p|] == p
  }

  function Concat(words: seq<string>): string {
    if words == [] then "" else words[0] + Concat(words[1..])
  }

  ghost predicate AllQualifiers(words: seq<string>) {
    forall w :: w in words ==> w in QUALIFIERS
  }

  /** The remainder is made of qualifiers. */
  ghost predicate Qualified(r: string) {
    exists words :: AllQualifiers(words) && r == Concat(words)
  }

  /** The base followed by qualifiers. */
  ghost predicate Extends(key: string, base: string) {
    StartsWith(key, base) && Qualified(key[|base|..])
  }

  /** The language of secret keys over the given bases. */
  ghost predicate Secret(bases: set<string>, key: string) {
    exists base :: base in bases && Extends(key, base)
  }

  // ----- greedy stripping loses nothing

  /** Qualifiers begin with different letters, so at most one can be stripped. */
  lemma OneQualifierFits(r: string, p: string, q: string)
    requires p in QUALIFIERS && q in QUALIFIERS && StartsWith(r, p) && StartsWith(r, q)
    ensures p == q
  {
    assert r[..|p|][0] == r[0] && r[..|q|][0] == r[0];
    assert p[0] == q[0];
    var i :| 0 <= i < |QUALIFIERS| && QUALIFIERS[i] == p;
    var j :| 0 <= j < |QUALIFIERS| && QUALIFIERS[j] == q;
    FirstLettersDiffer(i, j);
  }

  lemma FirstLettersDiffer(i: nat, j: nat)
    requires i < |QUALIFIERS| && j < |QUALIFIERS|
    ensures QUALIFIERS[i] != "" && QUALIFIERS[j] != ""
    ensures QUALIFIERS[i][0] == QUALIFIERS[j][0] ==> i == j
  {
    assert QUALIFIERS[0][0] == 'm' && QUALIFIERS[1][0] == 'h' && QUALIFIERS[2][0] == 's' && QUALIFIERS[3][0] == 't' && QUALIFIERS[4][0] == 'v';
  }

  lemma StripKeepsLanguage(r: string, q: string)
    requires q in QUALIFIERS && StartsWith(r, q)
    ensures Qualified(r) <==> Qualified(r[|q|..])
  {
    if Qualified(r[|q|..]) {
      var words :| AllQualifiers(words) && r[|q|..] == Concat(words);
      assert ([q] + words)[1..] == words && r == q + r[|q|..];
      assert Concat([q] + words) == r && AllQualifiers([q] + words);
    }
    if Qualified(r) {
      var words :| AllQualifiers(words) && r == Concat(words);
      QualifiersAreNonEmpty(q);
      assert words[0] in words && StartsWith(r, words[0]);
      OneQualifierFits(r, q, words[0]);
      assert AllQualifiers(words[1..]) && r[|q|..] == Concat(words[1..]);
    }
  }

  lemma QualifiersAreNonEmpty(q: string)
    requires q in QUALIFIERS
    ensures q != ""
  {
    var i :| 0 <= i < |QUALIFIERS| && QUALIFIERS[i] == q;
    FirstLettersDiffer(i, i);
  }

  lemma NothingFits(r: string)
    requires r != "" && forall q :: q in QUALIFIERS ==> !StartsWith(r, q)
    ensures !Qualified(r)
  {
    if Qualified(r) {
      var words :| AllQualifiers(words) && r == Concat(words);
      assert words[0] in words && StartsWith(r, words[0]);
    }
  }

  /** Strips one qualifier after another, always the first that fits. */
  method OnlyQualifiers(remainder: string) returns (ok: bool)
    ensures ok <==> Qualified(remainder)
  {
    var r := remainder;
    while r != ""
      invariant Qualified(r) <==> Qualified(remainder)
      decreases |r|
    {
      var i := 0;
      while i < |QUALIFIERS| && !StartsWith(r, QUALIFIERS[i])
        invariant 0 <= i <= |QUALIFIERS| && forall j :: 0 <= j < i ==> !StartsWith(r, QUALIFIERS[j])
      {
        i := i + 1;
      }
      if i == |QUALIFIERS| {
        NothingFits(r);
        return false;
      }
      QualifiersAreNonEmpty(QUALIFIERS[i]);
      StripKeepsLanguage(r, QUALIFIERS[i]);
      r := r[|QUALIFIERS[i]|..];
    }
    assert AllQualifiers([]) && "" == Concat([]);
    ok := true;
  }

  /** Tries the bases in the given order. */
  method TryBases(order: seq<string>, normalized: string) returns (secret: bool)
    ensures secret <==> Secret((set b | b in order), normalized)
  {
    var i := 0;
    while i < |order|
      invariant 0 <= i <= |order| && forall j :: 0 <= j < i ==> !Extends(normalized, order[j])
    {
      var base := order[i];
      if StartsWith(normalized, base) {
        var ok := OnlyQualifiers(normalized[|base|..]);
        if ok {
          assert Extends(normalized, base) && base in (set b | b in order);
          return true;
        }
      }
      i := i + 1;
    }
    assert forall b :: b in order ==> !Extends(normalized, b);
    secret := false;
  }

  /** Accepts exactly the language, in whatever order the set of bases is enumerated. */
  method IsSecretBearingKey(order: seq<string>, key: string) returns (secret: bool)
    requires (set b | b in order) == BASES
    ensures secret <==> Secret(BASES, Normalize(key))
  {
    secret := TryBases(order, Normalize(key));
  }

  /** A qualifier appended to a secret key leaves it secret. */
  lemma QualifyingKeepsSecret(bases: set<string>, key: string, q: string)
    requires Secret(bases, key) && q in QUALIFIERS
    ensures Secret(bases, key + q)
  {
    var base :| base in bases && Extends(key, base);
    var words :| AllQualifiers(words) && key[|base|..] == Concat(words);
    ConcatSnoc(words, q);
    assert (key + q)[|base|..] == key[|base|..] + q && (key + q)[..|base|] == key[..|base|];
    assert AllQualifiers(words + [q]);
    assert Extends(key + q, base);
  }

  lemma {:induction false} ConcatSnoc(words: seq<string>, q: string)
    ensures Concat(words + [q]) == Concat(words) + q
  {
    if words != [] {
      assert (words + [q])[1..] == words[1..] + [q];
      ConcatSnoc(words[1..], q);
    }
  }

  lemma NormalizeCons(c: char, rest: string)
    ensures Normalize([c] + rest) == (if IsKept(c) then [c] else "") + Normalize(rest)
  {
    assert ([c] + rest)[1..] == rest;
  }

  lemma {:induction false} NormalizeConcat(a: string, b: string)
    ensures Normalize(a + b) == Normalize(a) + Normalize(b)
  {
    if a == "" {
      assert a + b == b;
    } else {
      var c, rest := a[0], a[1..];
      assert a == [c] + rest && a + b == [c] + (rest + b);
      NormalizeCons(c, rest + b);
      NormalizeConcat(rest, b);
    }
  }

  /** Separators never hide a secret key: nothing but letters and digits counts. */
  lemma SeparatorsDoNotMatter(bases: set<string>, a: string, separator: char, b: string)
    requires !IsKept(separator)
    ensures Secret(bases, Normalize(a + [separator] + b)) <==> Secret(bases, Normalize(a + b))
  {
    assert [separator][1..] == "";
    NormalizeConcat(a, [separator]);
    NormalizeConcat(a + [separator], b);
    NormalizeConcat(a, b);
    assert Normalize(a) + "" == Normalize(a);
  }

  // ----- which characters count

  /** By code point. */
  predicate LetterOrDigit(c: char) {
    0x61 <= c as int <= 0x7A || 0x30 <= c as int <= 0x39
  }

  /** Wherever a character stands it is kept exactly if it is a letter or a digit, and the others stay in their order. */
  lemma NormalizedExactly(before: string, c: char, after: string)
    ensures Normalize(before + [c] + after)
            == Normalize(before) + (if LetterOrDigit(c) then [c] else "") + Normalize(after)
  {
    NormalizeConcat(before + [c], after);
    NormalizeConcat(before, [c]);
    NormalizeCons(c, "");
    assert [c] + "" == [c];
  }
}
