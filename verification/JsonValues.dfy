/** JSON values, the order of object keys, and the canonical printer. */
module JsonValues {
  import opened Wrappers
  import opened JsonText

  /** Objects are dictionaries: their keys are unique and unordered. */
  datatype Json =
    | Null
    | Bool(b: bool)
    | Int(n: int)
    | Str(s: string)
    | Arr(items: seq<Json>)
    | Obj(fields: map<string, Json>)

  // ----- key order

  /** Lexicographic order by code point. */
  predicate Before(a: string, b: string) {
    a == "" || (b != "" && (a[0] < b[0] || (a[0] == b[0] && Before(a[1..], b[1..]))))
  }

  lemma {:induction false} BeforeIsTotal(a: string, b: string)
    ensures Before(a, b) || Before(b, a)
    ensures Before(a, b) && Before(b, a) ==> a == b
  {
    if a != "" && b != "" {
      BeforeIsTotal(a[1..], b[1..]);
      assert a == [a[0]] + a[1..] && b == [b[0]] + b[1..];
    }
  }

  lemma {:induction false} BeforeIsTransitive(a: string, b: string, c: string)
    requires Before(a, b) && Before(b, c)
    ensures Before(a, c)
  {
    if a != "" && a[0] == b[0] == c[0] {
      BeforeIsTransitive(a[1..], b[1..], c[1..]);
    }
  }

  ghost predicate IsLeast(k: string, ks: set<string>) {
    k in ks && forall x :: x in ks ==> Before(k, x)
  }

  lemma {:induction false} LeastExists(ks: set<string>) returns (k: string)
    requires ks != {}
    ensures IsLeast(k, ks)
  {
    var x :| x in ks;
    BeforeIsTotal(x, x);
    if ks == {x} {
      k := x;
    } else {
      var rest := LeastExists(ks - {x});
      BeforeIsTotal(x, rest);
      if Before(x, rest) {
        k := x;
        forall y | y in ks
          ensures Before(x, y)
        {
          if y != x {
            BeforeIsTransitive(x, rest, y);
          }
        }
      } else {
        k := rest;
      }
    }
  }

  ghost function Least(ks: set<string>): (k: string)
    requires ks != {}
    ensures IsLeast(k, ks)
  {
    var _ := LeastWitness(ks);
    var k :| IsLeast(k, ks);
    k
  }

  ghost function LeastWitness(ks: set<string>): (found: bool)
    requires ks != {}
    ensures exists k :: IsLeast(k, ks)
  {
    assert exists k :: IsLeast(k, ks) by {
      var k := LeastExists(ks);
      assert IsLeast(k, ks);
    }
    true
  }

  /** The keys in the order the printer writes them. */
  ghost function Sorted(ks: set<string>): (s: seq<string>)
    ensures |s| == |ks|
    ensures forall k :: k in s <==> k in ks
  {
    if ks == {} then [] else [Least(ks)] + Sorted(ks - {Least(ks)})
  }

  predicate Increasing(s: seq<string>) {
    forall i, j :: 0 <= i < j < |s| ==> Before(s[i], s[j]) && s[i] != s[j]
  }

  lemma LeastFirst(k: string, ks: set<string>, rest: seq<string>)
    requires IsLeast(k, ks) && (forall x :: x in rest <==> x in ks - {k}) && Increasing(rest)
    ensures Increasing([k] + rest)
  {
    var s := [k] + rest;
    forall i, j | 0 <= i < j < |s|
      ensures Before(s[i], s[j]) && s[i] != s[j]
    {
      assert s[j] == rest[j - 1] && rest[j - 1] in rest;
      if i > 0 {
        assert s[i] == rest[i - 1];
      }
    }
  }

  lemma {:induction false} SortedIsStrictlyIncreasing(ks: set<string>)
    ensures Increasing(Sorted(ks))
  {
    if ks != {} {
      var k := Least(ks);
      SortedIsStrictlyIncreasing(ks - {k});
      LeastFirst(k, ks, Sorted(ks - {k}));
    }
  }

  // ----- the printer

  /** The parts with commas between them. */
  function Join(parts: seq<string>): string {
    if parts == [] then "" else if |parts| == 1 then parts[0] else parts[0] + "," + Join(parts[1..])
  }

  function MemberText(k: string, value: string): string {
    Quote(k) + ":" + value
  }

  ghost function Canonical(v: Json): string {
    match v
    case Null => "null"
    case Bool(b) => if b then "true" else "false"
    case Int(n) => IntText(n)
    case Str(s) => Quote(s)
    case Arr(items) => "[" + Join(seq(|items|, i requires 0 <= i < |items| => Canonical(items[i]))) + "]"
    case Obj(fields) =>
      var ks := Sorted(fields.Keys);
      "{" + Join(seq(|ks|, i requires 0 <= i < |ks| => assert ks[i] in ks; MemberText(ks[i], Canonical(fields[ks[i]])))) + "}"
  }

  // ----- sizes

  /** Number of values, keys excluded. */
  ghost function Count(v: Json): (n: nat)
    ensures n > 0
    decreases v, 0
  {
    match v
    case Arr(items) => 1 + CountItems(items)
    case Obj(fields) => 1 + CountKeys(v, fields.Keys)
    case _ => 1
  }

  ghost function CountItems(items: seq<Json>): nat
    decreases items, 0
  {
    if items == [] then 0 else CountItems(items[..|items| - 1]) + Count(items[|items| - 1])
  }

  ghost function CountKeys(v: Json, ks: set<string>): nat
    requires v.Obj? && ks <= v.fields.Keys
    decreases v, 0, |ks|
  {
    if ks == {} then 0 else var k :| k in ks; Count(v.fields[k]) + CountKeys(v, ks - {k})
  }

  /** The children, named so that a statement about all of them is used only where one is mentioned. */
  function Item(v: Json, i: int): Json
    requires v.Arr? && 0 <= i < |v.items|
  {
    v.items[i]
  }

  function Field(v: Json, k: string): Json
    requires v.Obj? && k in v.fields
  {
    v.fields[k]
  }

  /** Nested at most `h` levels below its root. */
  predicate Shallow(v: Json, h: int) {
    && h >= 0
    && (v.Arr? ==> forall i {:trigger Item(v, i)} :: 0 <= i < |v.items| ==> Shallow(v.items[i], h - 1))
    && (v.Obj? ==> forall k {:trigger Field(v, k)} :: k in v.fields ==> Shallow(v.fields[k], h - 1))
  }

  /** Every integer inside can be read back. */
  predicate AllReadable(v: Json) {
    && (v.Int? ==> Readable(v.n))
    && (v.Arr? ==> forall i {:trigger Item(v, i)} :: 0 <= i < |v.items| ==> AllReadable(v.items[i]))
    && (v.Obj? ==> forall k {:trigger Field(v, k)} :: k in v.fields ==> AllReadable(v.fields[k]))
  }

  lemma {:induction false} CountKeysPick(v: Json, ks: set<string>, k: string)
    requires v.Obj? && ks <= v.fields.Keys && k in ks
    ensures CountKeys(v, ks) == Count(v.fields[k]) + CountKeys(v, ks - {k})
    decreases |ks|
  {
    var x :| x in ks && CountKeys(v, ks) == Count(v.fields[x]) + CountKeys(v, ks - {x});
    if x != k {
      CountKeysPick(v, ks - {x}, k);
      CountKeysPick(v, ks - {k}, x);
      assert ks - {x} - {k} == ks - {k} - {x};
    }
  }

  lemma {:induction false} CountKeysAgree(v: Json, w: Json, ks: set<string>)
    requires v.Obj? && w.Obj? && ks <= v.fields.Keys && ks <= w.fields.Keys
    requires forall k :: k in ks ==> v.fields[k] == w.fields[k]
    ensures CountKeys(v, ks) == CountKeys(w, ks)
    decreases |ks|
  {
    if ks != {} {
      var k :| k in ks;
      CountKeysPick(v, ks, k);
      CountKeysPick(w, ks, k);
      CountKeysAgree(v, w, ks - {k});
    }
  }

  /** Adding a new key adds its value's count. */
  lemma CountNewKey(fields: map<string, Json>, k: string, v: Json)
    requires k !in fields
    ensures Count(Obj(fields[k := v])) == Count(Obj(fields)) + Count(v)
  {
    var w := Obj(fields[k := v]);
    CountKeysPick(w, w.fields.Keys, k);
    assert w.fields.Keys - {k} == fields.Keys;
    CountKeysAgree(w, Obj(fields), fields.Keys);
  }
}
