/** A text form of JSON documents from which the document can be told: the assumption that a
    document written is read back can be met. */
module JsonText {
  import opened Wrappers
  import opened RegradeBackfill

  /** Each character behind a mark, then an end mark. */
  function Quote(s: string): string {
    if s == "" then "." else "'" + [s[0]] + Quote(s[1..])
  }

  function Tag(j: Json): char {
    match j
    case Null => 'n'
    case Bool(b) => if b then 't' else 'f'
    case Num(_) => '#'
    case Str(_) => '$'
    case Arr(_) => '['
    case Obj(_) => '{'
  }

  ghost function Text(j: Json): string
    decreases j, 2, 0
  {
    [Tag(j)] + Rest(j)
  }

  ghost function Rest(j: Json): string
    decreases j, 1, 0
  {
    match j
    case Null => ""
    case Bool(_) => ""
    case Num(literal) => Quote(literal)
    case Str(s) => Quote(s)
    case Arr(elements) => TextOfElements(j, elements)
    case Obj(fields) => TextOfFields(j, fields)
  }

  ghost function TextOfElements(j: Json, elements: seq<Json>): string
    requires forall i :: 0 <= i < |elements| ==> elements[i] < j
    decreases j, 0, |elements|
  {
    if elements == [] then "]" else "," + (Text(elements[0]) + TextOfElements(j, elements[1..]))
  }

  ghost function TextOfFields(j: Json, fields: Doc): string
    requires forall k :: k in fields ==> fields[k] < j
    decreases j, 0, |fields|
  {
    if fields == map[] then "}" else
      var k :| k in fields;
      "," + (Quote(k) + (Text(fields[k]) + TextOfFields(j, fields - {k})))
  }

  /** Nothing that follows the text of a document can be mistaken for part of it. */
  lemma {:induction false} QuoteEnds(a: string, x: string, b: string, y: string)
    requires Quote(a) + x == Quote(b) + y
    ensures a == b && x == y
    decreases |a|
  {
    var s, t := Quote(a) + x, Quote(b) + y;
    if a == "" {
      assert s[0] == '.' == t[0];
      assert b == "";
      assert s[1..] == x && t[1..] == y;
    } else {
      assert s[0] == '\'' == t[0];
      assert b != "";
      assert s == "'" + [a[0]] + (Quote(a[1..]) + x) && t == "'" + [b[0]] + (Quote(b[1..]) + y);
      assert s[1] == a[0] && t[1] == b[0];
      assert s[2..] == Quote(a[1..]) + x && t[2..] == Quote(b[1..]) + y;
      QuoteEnds(a[1..], x, b[1..], y);
      assert a == [a[0]] + a[1..] && b == [b[0]] + b[1..];
    }
  }

  lemma Uncons(c: char, p: string, x: string, d: char, q: string, y: string)
    requires ([c] + p) + x == ([d] + q) + y
    ensures c == d && p + x == q + y
  {
    assert c == (([c] + p) + x)[0] && d == (([d] + q) + y)[0];
    assert p + x == (([c] + p) + x)[1..] && q + y == (([d] + q) + y)[1..];
  }

  lemma {:induction false} TextEnds(a: Json, x: string, b: Json, y: string)
    requires Text(a) + x == Text(b) + y
    ensures a == b && x == y
    decreases a, 1, 0
  {
    hide *;
    TextIs(a);
    TextIs(b);
    Uncons(Tag(a), Rest(a), x, Tag(b), Rest(b), y);
    RestIs(a);
    RestIs(b);
    TagsDiffer(a, b);
    match a {
      case Null => assert "" + x == x && "" + y == y;
      case Bool(_) => assert "" + x == x && "" + y == y;
      case Num(m) => QuoteEnds(m, x, b.literal, y);
      case Str(m) => QuoteEnds(m, x, b.s, y);
      case Arr(elements) => ElementsEnd(a, elements, x, b, b.elements, y);
      case Obj(fields) => FieldsEnd(a, fields, x, b, b.fields, y);
    }
  }

  lemma TextIs(j: Json)
    ensures Text(j) == [Tag(j)] + Rest(j)
  {
  }

  lemma RestIs(j: Json)
    ensures j.Null? || j.Bool? ==> Rest(j) == ""
    ensures j.Num? ==> Rest(j) == Quote(j.literal)
    ensures j.Str? ==> Rest(j) == Quote(j.s)
    ensures j.Arr? ==> Rest(j) == TextOfElements(j, j.elements)
    ensures j.Obj? ==> Rest(j) == TextOfFields(j, j.fields)
  {
  }

  lemma TagsDiffer(a: Json, b: Json)
    requires Tag(a) == Tag(b)
    ensures a.Null? == b.Null? && a.Bool? == b.Bool? && a.Num? == b.Num? && a.Str? == b.Str? && a.Arr? == b.Arr?
    ensures a.Bool? ==> a == b
  {
  }

  lemma {:induction false} ElementsEnd(j: Json, a: seq<Json>, x: string, i: Json, b: seq<Json>, y: string)
    requires forall k :: 0 <= k < |a| ==> a[k] < j
    requires forall k :: 0 <= k < |b| ==> b[k] < i
    requires TextOfElements(j, a) + x == TextOfElements(i, b) + y
    ensures a == b && x == y
    decreases j, 0, |a|
  {
    hide *;
    FirstElement(j, a, x);
    FirstElement(i, b, y);
    if a == [] || b == [] {
      assert x == ("]" + x)[1..] && y == ("]" + y)[1..];
    } else {
      var u, v := TextOfElements(j, a[1..]) + x, TextOfElements(i, b[1..]) + y;
      assert Text(a[0]) + u == ("," + (Text(a[0]) + u))[1..] && Text(b[0]) + v == ("," + (Text(b[0]) + v))[1..];
      TextEnds(a[0], u, b[0], v);
      ElementsEnd(j, a[1..], x, i, b[1..], y);
      assert a == [a[0]] + a[1..] && b == [b[0]] + b[1..];
    }
  }

  lemma FirstElement(j: Json, elements: seq<Json>, x: string)
    requires forall k :: 0 <= k < |elements| ==> elements[k] < j
    ensures elements == [] ==> TextOfElements(j, elements) + x == "]" + x && ("]" + x)[0] == ']'
    ensures elements != [] ==>
      var s := "," + (Text(elements[0]) + (TextOfElements(j, elements[1..]) + x));
      TextOfElements(j, elements) + x == s && s[0] == ','
  {
    hide Text;
  }

  lemma {:induction false} FieldsEnd(j: Json, a: Doc, x: string, i: Json, b: Doc, y: string)
    requires forall k :: k in a ==> a[k] < j
    requires forall k :: k in b ==> b[k] < i
    requires TextOfFields(j, a) + x == TextOfFields(i, b) + y
    ensures a == b && x == y
    decreases j, 0, |a|
  {
    hide *;
    if a == map[] {
      NoFields(j, x);
      if b != map[] {
        var l := FirstField(i, b, y);
      } else {
        NoFields(i, y);
        assert x == ("}" + x)[1..] && y == ("}" + y)[1..];
      }
    } else if b == map[] {
      NoFields(i, y);
      var k := FirstField(j, a, x);
    } else {
      var k := FirstField(j, a, x);
      var l := FirstField(i, b, y);
      var u, v := TextOfFields(j, a - {k}) + x, TextOfFields(i, b - {l}) + y;
      assert Quote(k) + (Text(a[k]) + u) == ("," + (Quote(k) + (Text(a[k]) + u)))[1..];
      assert Quote(l) + (Text(b[l]) + v) == ("," + (Quote(l) + (Text(b[l]) + v)))[1..];
      QuoteEnds(k, Text(a[k]) + u, l, Text(b[l]) + v);
      TextEnds(a[k], u, b[l], v);
      FieldsEnd(j, a - {k}, x, i, b - {l}, y);
      assert a == (a - {k})[k := a[k]] && b == (b - {l})[l := b[l]];
    }
  }

  lemma NoFields(j: Json, x: string)
    ensures TextOfFields(j, map[]) + x == "}" + x && ("}" + x)[0] == '}'
  {
  }

  lemma FirstField(j: Json, m: Doc, x: string) returns (k: string)
    requires m != map[] && forall k :: k in m ==> m[k] < j
    ensures k in m
    ensures var s := "," + (Quote(k) + (Text(m[k]) + (TextOfFields(j, m - {k}) + x)));
      TextOfFields(j, m) + x == s && s[0] == ','
  {
    hide Text, Quote;
    k :| k in m && TextOfFields(j, m) == "," + (Quote(k) + (Text(m[k]) + TextOfFields(j, m - {k})));
  }

  ghost function Dump(d: Doc): string {
    Text(Obj(d))
  }

  ghost function Parse(s: string): Option<Doc> {
    if exists d :: Dump(d) == s then
      var d :| Dump(d) == s;
      Some(d)
    else None
  }

  /** There are environments as assumed, in which JSON can carry every grade. */
  lemma SomeEnvironment() returns (env: Env)
    ensures RoundTrips(env) && CountsStamped(env) && forall d :: ReadBack(env, d)
  {
    env := Env(s => Parse(s), d => Dump(d), _ => None, _ => true);
    forall d ensures ReadBack(env, d) {
      hide Text;
      assert Dump(d) == env.dump(d);
      var e :| Dump(e) == Dump(d) && Parse(Dump(d)) == Some(e);
      assert Dump(e) + "" == Dump(d) + "";
      TextEnds(Obj(e), "", Obj(d), "");
    }
  }
}
