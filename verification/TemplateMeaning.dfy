/**
 What small templates render, for every JSON value: values, escapes, sections
 on each kind of value, the scopes they open, and the limits of the engine.
 */
module TemplateMeaning {
  import opened Json
  import opened Names
  import opened NamesMeaning
  import opened Options
  import opened Simulation
  import T = Template

  /** The texts of the values that are there, one after the other. */
  function Texts(items: seq<Json>, text: Json -> string): string {
    if items == [] then "" else (if items[0] == Null then "" else text(items[0])) + Texts(items[1..], text)
  }

  lemma One(n: T.Node, scopes: seq<Json>, depth: nat, text: Json -> string)
    requires scopes != [] && T.WellFormedNode(n)
    ensures T.WellFormed([n]) && T.Render([n], scopes, depth, text) == T.RenderNode(n, scopes, depth, text)
  {
    assert [n][1..] == [];
    var r := T.RenderNode(n, scopes, depth, text);
    if r.Some? { assert r.value + "" == r.value; }
  }

  // ----------------------------------------------------------------------- values

  /** A value is put as its text, escaped exactly when asked, and nothing is put for nothing. */
  lemma PutValue(name: string, escape: bool, root: Json, text: Json -> string)
    ensures var o := FindName([root], name, text);
            Result([T.Put(name, escape)], root, text) ==
            (0, if o == Null then "" else if escape then T.Escaped(text(o)) else text(o))
  {
    var n := T.Leaf(T.Put(name, escape));
    One(n, [root], 0, text);
    RendersNested([n], root, text);
    assert T.Flatten([n]) == [T.Put(name, escape)] by { assert [n][1..] == [] && T.Flatten([]) == []; }
  }

  /** Texts are copied, comments leave nothing. */
  lemma TextAndComment(s: string, root: Json, text: Json -> string)
    ensures Result([T.Text(s), T.Comment], root, text) == (0, s)
  {
    var a, b := T.Leaf(T.Text(s)), T.Leaf(T.Comment);
    var ns := [a, b];
    assert ns[1..] == [b];
    One(b, [root], 0, text);
    RendersNested(ns, root, text);
    assert T.Flatten([b]) == [T.Comment] by { assert [b][1..] == [] && T.Flatten([]) == []; }
    assert T.Flatten(ns) == [T.Text(s), T.Comment];
    assert T.Render([b], [root], 0, text) == Some("") && T.RenderNode(a, [root], 0, text) == Some(s);
    assert T.Render(ns, [root], 0, text) == Some(s + "") && s + "" == s;
  }

  /** Escaping goes character by character: percent signs are doubled, newlines written as two characters. */
  lemma {:induction false} EscapedConcat(a: string, b: string)
    ensures T.Escaped(a + b) == T.Escaped(a) + T.Escaped(b)
    decreases |a|
  {
    if a == "" {
      assert a + b == b;
    } else {
      assert (a + b)[0] == a[0] && (a + b)[1..] == a[1..] + b;
      EscapedConcat(a[1..], b);
    }
  }

  lemma EscapedChar(c: char)
    ensures T.Escaped("%") == "%%" && T.Escaped("\n") == "\\n" && (c != '%' && c != '\n' ==> T.Escaped([c]) == [c])
  {
    assert forall s: string :: |s| == 1 ==> s[1..] == "";
  }

  lemma {:induction false} EscapedPlain(s: string)
    requires '%' !in s && '\n' !in s
    ensures T.Escaped(s) == s
    decreases |s|
  {
    if s != "" {
      assert s[0] in s && s == [s[0]] + s[1..];
      EscapedPlain(s[1..]);
    }
  }

  // --------------------------------------------------------------------- sections

  /** A section whose body is one leaf. */
  function Around(inverted: bool, name: string, leaf: T.Token): seq<T.Token> {
    [T.Open(inverted, name), leaf, T.Close(name)]
  }

  lemma AroundRenders(inverted: bool, name: string, leaf: T.Token, root: Json, text: Json -> string)
    requires T.IsLeaf(leaf)
    ensures var items := T.Items(FindOr([root], name, text));
            var body := [T.Leaf(leaf)];
            && T.WellFormed(body)
            && var r := if !inverted then T.RenderItems(body, items, [root], 1, text)
                        else if items == [] then Some(T.LeafText(leaf, [root], text)) else Some("");
               r.Some? ==> Result(Around(inverted, name, leaf), root, text) == (0, r.value)
  {
    var body := [T.Leaf(leaf)];
    var n := T.Section(inverted, name, body);
    assert body[1..] == [] && T.Flatten([]) == [];
    assert T.Flatten(body) == [leaf];
    One(T.Leaf(leaf), [root], 1, text);
    One(n, [root], 0, text);
    RendersNested([n], root, text);
    assert [n][1..] == [];
    assert T.Flatten([n]) == Around(inverted, name, leaf);
    assert T.Nesting(body) == 0;
  }

  lemma {:induction false} DotItems(items: seq<Json>, root: Json, text: Json -> string)
    ensures var body := [T.Leaf(T.Put(".", false))];
            T.WellFormed(body) && T.RenderItems(body, items, [root], 1, text) == Some(Texts(items, text))
    decreases |items|
  {
    var body := [T.Leaf(T.Put(".", false))];
    assert body[1..] == [];
    if items != [] {
      var scopes := [root] + [items[0]];
      One(T.Leaf(T.Put(".", false)), scopes, 1, text);
      Dot(scopes, text);
      DotItems(items[1..], root, text);
    }
  }

  /** A section on an array, with the dot in it, gives the texts of its items in order. */
  lemma EachItem(name: string, items: seq<Json>, root: Json, text: Json -> string)
    requires FindOr([root], name, text) == Array(items)
    ensures Result(Around(false, name, T.Put(".", false)), root, text) == (0, Texts(items, text))
  {
    AroundRenders(false, name, T.Put(".", false), root, text);
    DotItems(items, root, text);
  }

  /** {{#l}}{{.}}{{/l}} on {"l": ["a", "b"]} writes ab. */
  lemma EachItemExample(text: Json -> string)
    requires text(Str("a")) == "a" && text(Str("b")) == "b"
    ensures Result(Around(false, "l", T.Put(".", false)), Object([Field("l", Array([Str("a"), Str("b")]))]), text) == (0, "ab")
  {
    var items := [Str("a"), Str("b")];
    var root := Object([Field("l", Array(items))]);
    assert Lookup(root, "l") == Some(Array(items));
    PlainKey([root], "l", text, 0);
    assert Has([root], "l", 0);
    FirstOfTwo([root], "l", "l", text);
    EachItem("l", items, root, text);
    assert items[1..] == [Str("b")] && [Str("b")][1..] == [];
    assert Texts([Str("b")], text) == "b" + Texts([], text) == "b";
    assert Texts(items, text) == "a" + "b" == "ab";
  }

  function Repeated(s: string, n: nat): string {
    if n == 0 then "" else s + Repeated(s, n - 1)
  }

  lemma {:induction false} TextItems(s: string, items: seq<Json>, root: Json, text: Json -> string)
    ensures var body := [T.Leaf(T.Text(s))];
            T.WellFormed(body) && T.RenderItems(body, items, [root], 1, text) == Some(Repeated(s, |items|))
    decreases |items|
  {
    var body := [T.Leaf(T.Text(s))];
    assert body[1..] == [];
    if items != [] {
      One(T.Leaf(T.Text(s)), [root] + [items[0]], 1, text);
      TextItems(s, items[1..], root, text);
    }
  }

  /**
   How often a section is written: once for each item of an array, once for an
   object, true, a number that is not zero and a text that is not empty, and
   never for anything else. The inverted section is written once in that case.
   */
  lemma SectionTimes(name: string, s: string, root: Json, text: Json -> string)
    ensures var o := FindOr([root], name, text);
            var n := match o
                     case Null => 0
                     case Bool(b) => if b then 1 else 0
                     case Number(_, nonzero) => if nonzero then 1 else 0
                     case Str(t) => if t != "" then 1 else 0
                     case Array(items) => |items|
                     case Object(_) => 1;
            && Result(Around(false, name, T.Text(s)), root, text) == (0, Repeated(s, n))
            && Result(Around(true, name, T.Text(s)), root, text) == (0, if n == 0 then s else "")
  {
    var items := T.Items(FindOr([root], name, text));
    AroundRenders(false, name, T.Text(s), root, text);
    AroundRenders(true, name, T.Text(s), root, text);
    TextItems(s, items, root, text);
  }

  /** Inside the section of an object its fields are found first, then those outside. */
  lemma FieldsInside(name: string, k: string, root: Json, text: Json -> string)
    requires FindOr([root], name, text).Object? && Plain(k)
    ensures var o := FindOr([root], name, text);
            var v := if Lookup(o, k).Some? then Lookup(o, k).value else FieldOf(root, k);
            Result(Around(false, name, T.Put(k, false)), root, text) == (0, if v == Null then "" else text(v))
  {
    var o := FindOr([root], name, text);
    var body, leaf := [T.Leaf(T.Put(k, false))], T.Put(k, false);
    AroundRenders(false, name, leaf, root, text);
    var scopes := [root] + [o];
    assert body[1..] == [] && [o][1..] == [];
    One(T.Leaf(leaf), scopes, 1, text);
    PlainKey(scopes, k, text, if Lookup(o, k).Some? then 1 else 0);
    assert Lookup(o, k).Some? ==> Has(scopes, k, 1);
    assert Lookup(o, k) == None ==> Has(scopes, k, 0) || HasNot(scopes, k);
    var r := T.Render(body, scopes, 1, text);
    assert T.RenderItems(body, [], [root], 1, text) == Some("");
    assert r.value + "" == r.value;
  }

  // ----------------------------------------------------------------------- limits

  /** Sections inside each other. */
  function Tower(n: nat, name: string): seq<T.Node> {
    if n == 0 then [] else [T.Section(false, name, Tower(n - 1, name))]
  }

  lemma {:induction false} TowerFacts(n: nat, name: string)
    ensures T.WellFormed(Tower(n, name)) && T.Nesting(Tower(n, name)) == n
  {
    if n > 0 {
      TowerFacts(n - 1, name);
      assert Tower(n, name)[1..] == [];
    }
  }

  /** Sections on a true value may be 255 deep; one more is an error. */
  lemma DepthLimit(n: nat, text: Json -> string)
    ensures var root := Object([Field("x", Bool(true))]);
            && T.WellFormed(Tower(n, "x"))
            && if n <= 255 then Result(T.Flatten(Tower(n, "x")), root, text) == (0, "")
               else Result(T.Flatten(Tower(n, "x")), root, text).0 == -6
  {
    var root := Object([Field("x", Bool(true))]);
    TowerFacts(n, "x");
    TowerIn(n, [root], 0, text);
    RendersNested(Tower(n, "x"), root, text);
  }

  /** A section on a true value is its body, one scope deeper. */
  lemma TrueSection(body: seq<T.Node>, name: string, scopes: seq<Json>, depth: nat, text: Json -> string)
    requires scopes != [] && T.WellFormed(body) && FindOr(scopes, name, text) == Bool(true)
    ensures T.RenderNode(T.Section(false, name, body), scopes, depth, text) ==
            if depth >= 256 || |scopes| >= 256 then None else T.Render(body, scopes + [Bool(true)], depth + 1, text)
  {
    var one := [Bool(true)];
    assert one[1..] == [] && T.RenderItems(body, [], scopes, depth + 1, text) == Some("");
    var first := T.Render(body, scopes + [one[0]], depth + 1, text);
    if first.Some? { assert first.value + "" == first.value; }
  }

  /** The stacks of scopes of the tower: the root, and true values in it. */
  ghost predicate Towering(scopes: seq<Json>) {
    && scopes != [] && scopes[0] == Object([Field("x", Bool(true))])
    && forall i :: 0 < i < |scopes| ==> scopes[i] == Bool(true)
  }

  lemma ToweringTrue(scopes: seq<Json>, text: Json -> string)
    requires Towering(scopes)
    ensures FindOr(scopes, "x", text) == Bool(true)
  {
    assert Lookup(scopes[0], "x") == Some(Bool(true));
    PlainKey(scopes, "x", text, 0);
    assert Has(scopes, "x", 0);
    FirstOfTwo(scopes, "x", "x", text);
  }

  lemma {:induction false} TowerIn(n: nat, scopes: seq<Json>, depth: nat, text: Json -> string)
    requires Towering(scopes) && |scopes| == depth + 1
    ensures T.WellFormed(Tower(n, "x"))
    ensures T.Render(Tower(n, "x"), scopes, depth, text) == if n > 0 && depth + n > 255 then None else Some("")
    decreases n
  {
    hide FindOr, T.RenderNode;
    TowerFacts(n, "x");
    if n > 0 {
      var body := Tower(n - 1, "x");
      TowerFacts(n - 1, "x");
      ToweringTrue(scopes, text);
      One(T.Section(false, "x", body), scopes, depth, text);
      TrueSection(body, "x", scopes, depth, text);
      if depth < 255 {
        TowerIn(n - 1, scopes + [Bool(true)], depth + 1, text);
      }
    }
  }

  /** A closing tag without opening one, and the other way round. */
  lemma UnbalancedCodes(name: string, other: string, root: Json, text: Json -> string)
    requires name != other
    ensures Result([T.Close(name)], root, text).0 == -7
    ensures Result([T.Open(false, name)], root, text).0 == -2
    ensures Result([T.Open(false, name), T.Close(other)], root, text).0 == -7
  {
    var a, b, c := [T.Close(name)], [T.Open(false, name)], [T.Open(false, name), T.Close(other)];
    VerdictOfTags(a, root, text);
    VerdictOfTags(b, root, text);
    VerdictOfTags(c, root, text);
    assert b[1..] == [] && c[1..] == [T.Close(other)];
    assert T.OpenAfter([], a) == None && [] + [name] == [name];
    assert T.OpenAfter([], b) == T.OpenAfter([name], []) == Some([name]);
    assert T.OpenAfter([], c) == T.OpenAfter([name], [T.Close(other)]) == None;
    assert a[..0] == [] && a[..1] == a && b[..0] == [] && b[..1] == b;
    assert c[..0] == [] && c[..1] == b && c[..2] == c;
    assert Shallow(a) && Shallow(b) && Shallow(c);
  }
}
