/**
 Templates of the mustach engine and their meaning.

 A template is the sequence of tags and texts that the scanner of
 src/mustach/mustach.c delivers; `Node` is the nested form, and `Render` gives
 it the meaning of the mustache manual: a section is rendered once per item of
 an array, once for an object or a true value, never otherwise; an inverted
 section exactly when the section would not be rendered.
 */
module Template {
  import opened Json
  import Names
  import opened Options

  const MAX_DEPTH := 256

  const OK := 0
  const ERROR_UNEXPECTED_END := -2
  const ERROR_TOO_DEEP := -6
  const ERROR_CLOSING := -7

  datatype Token =
    | Text(text: string)
    | Comment
    | Put(name: string, escape: bool)
    | Open(inverted: bool, name: string)
    | Close(name: string)

  datatype Node =
    | Leaf(token: Token)
    | Section(inverted: bool, name: string, body: seq<Node>)

  /** Leaves are not section tags. */
  predicate IsLeaf(t: Token) {
    t.Text? || t.Comment? || t.Put?
  }

  predicate WellFormed(ns: seq<Node>) {
    ns == [] || (WellFormedNode(ns[0]) && WellFormed(ns[1..]))
  }

  predicate WellFormedNode(n: Node) {
    match n
    case Leaf(t) => IsLeaf(t)
    case Section(_, _, body) => WellFormed(body)
  }

  function FlattenNode(n: Node): (ts: seq<Token>)
    ensures ts != []
    decreases n, 1
  {
    match n
    case Leaf(t) => [t]
    case Section(inverted, name, body) => [Open(inverted, name)] + Flatten(body) + [Close(name)]
  }

  /** The tags of nested nodes, in the order they are written. */
  function Flatten(ns: seq<Node>): seq<Token>
    decreases ns, 0
  {
    if ns == [] then [] else FlattenNode(ns[0]) + Flatten(ns[1..])
  }

  /** Levels of section nesting. */
  function Nesting(ns: seq<Node>): nat
    decreases ns, 0
  {
    if ns == [] then 0 else Max(NestingOf(ns[0]), Nesting(ns[1..]))
  }

  function NestingOf(n: Node): nat
    decreases n, 1
  {
    match n
    case Leaf(_) => 0
    case Section(_, _, body) => 1 + Nesting(body)
  }

  // ------------------------------------------------------------------ rendering

  /** What the escaping printer of the back end writes. */
  function Escaped(s: string): string {
    if s == "" then ""
    else (if s[0] == '%' then "%%" else if s[0] == '\n' then "\\n" else [s[0]]) + Escaped(s[1..])
  }

  /** Text produced by a leaf. */
  function LeafText(t: Token, scopes: seq<Json>, text: Json -> string): string
    requires scopes != [] && IsLeaf(t)
  {
    match t
    case Text(s) => s
    case Comment => ""
    case Put(name, escape) =>
      var o := Names.FindName(scopes, name, text);
      if o == Null then "" else if escape then Escaped(text(o)) else text(o)
  }

  /** The values a section is rendered for. */
  function Items(o: Json): seq<Json> {
    match o
    case Array(items) => items
    case Object(_) => [o]
    case _ => if Truthy(o) then [o] else []
  }

  /**
   The meaning of nodes in a stack of scopes, `depth` sections deep, or None
   when a limit of the engine or of the back end is exceeded.
   */
  function Render(ns: seq<Node>, scopes: seq<Json>, depth: nat, text: Json -> string): Option<string>
    requires scopes != [] && WellFormed(ns)
    decreases ns, 0, 0
  {
    if ns == [] then Some("")
    else
      var first := RenderNode(ns[0], scopes, depth, text);
      if first == None then None
      else
        var rest := Render(ns[1..], scopes, depth, text);
        if rest == None then None else Some(first.value + rest.value)
  }

  function RenderNode(n: Node, scopes: seq<Json>, depth: nat, text: Json -> string): Option<string>
    requires scopes != [] && WellFormedNode(n)
    decreases n, 1, 0
  {
    match n
    case Leaf(t) => Some(LeafText(t, scopes, text))
    case Section(inverted, name, body) =>
      if depth >= MAX_DEPTH || |scopes| >= MAX_DEPTH then None
      else
        var items := Items(Names.FindOr(scopes, name, text));
        if inverted then
          if items == [] then Render(body, scopes, depth + 1, text) else Skipped(body, depth + 1)
        else
          if items == [] then Skipped(body, depth + 1) else RenderItems(body, items, scopes, depth + 1, text)
  }

  /** The body once per item, in order, with the item as innermost scope. */
  function RenderItems(body: seq<Node>, items: seq<Json>, scopes: seq<Json>, depth: nat, text: Json -> string): Option<string>
    requires scopes != [] && WellFormed(body)
    decreases body, 1, items
  {
    if items == [] then Some("")
    else
      var first := Render(body, scopes + [items[0]], depth, text);
      if first == None then None
      else
        var rest := RenderItems(body, items[1..], scopes, depth, text);
        if rest == None then None else Some(first.value + rest.value)
  }

  /** A skipped body writes nothing but still counts its nesting. */
  function Skipped(body: seq<Node>, depth: nat): Option<string> {
    if Nesting(body) > 0 && depth + Nesting(body) > MAX_DEPTH then None else Some("")
  }

  /** Enough room for every section: no limit can be hit. */
  lemma {:induction false} RoomyRenders(ns: seq<Node>, scopes: seq<Json>, depth: nat, text: Json -> string)
    requires scopes != [] && WellFormed(ns)
    requires depth + Nesting(ns) < MAX_DEPTH && |scopes| + Nesting(ns) <= MAX_DEPTH
    ensures Render(ns, scopes, depth, text).Some?
    decreases ns, 0, 0
  {
    if ns != [] {
      if ns[0].Section? {
        var body := ns[0].body;
        var items := Items(Names.FindOr(scopes, ns[0].name, text));
        RoomyRenders(body, scopes, depth + 1, text);
        RoomyItems(body, items, scopes, depth + 1, text);
      }
      RoomyRenders(ns[1..], scopes, depth, text);
    }
  }

  lemma {:induction false} RoomyItems(body: seq<Node>, items: seq<Json>, scopes: seq<Json>, depth: nat, text: Json -> string)
    requires scopes != [] && WellFormed(body)
    requires depth + Nesting(body) < MAX_DEPTH && |scopes| + 1 + Nesting(body) <= MAX_DEPTH
    ensures RenderItems(body, items, scopes, depth, text).Some?
    decreases body, 1, items
  {
    if items != [] {
      RoomyRenders(body, scopes + [items[0]], depth, text);
      RoomyItems(body, items[1..], scopes, depth, text);
    }
  }

  // -------------------------------------------------------------------- balance

  /** The names of the sections open after `ts`, or None at a wrong closing tag. */
  function OpenAfter(names: seq<string>, ts: seq<Token>): Option<seq<string>>
    decreases |ts|
  {
    if ts == [] then Some(names)
    else match ts[0]
      case Open(_, name) => OpenAfter(names + [name], ts[1..])
      case Close(name) =>
        if names == [] || names[|names| - 1] != name then None
        else OpenAfter(names[..|names| - 1], ts[1..])
      case _ => OpenAfter(names, ts[1..])
  }

  /** Every closing tag names the innermost open section and none is left open. */
  predicate Balanced(ts: seq<Token>) {
    OpenAfter([], ts) == Some([])
  }

  lemma {:induction false} OpenAfterConcat(names: seq<string>, a: seq<Token>, b: seq<Token>)
    ensures OpenAfter(names, a + b) ==
            match OpenAfter(names, a) case None => None case Some(m) => OpenAfter(m, b)
    decreases |a|
  {
    if a == [] {
      assert a + b == b;
    } else {
      assert (a + b)[1..] == a[1..] + b;
      match a[0]
      case Open(_, name) => OpenAfterConcat(names + [name], a[1..], b);
      case Close(name) =>
        if names != [] && names[|names| - 1] == name {
          OpenAfterConcat(names[..|names| - 1], a[1..], b);
        }
      case _ => OpenAfterConcat(names, a[1..], b);
    }
  }

  /** Nested nodes are balanced. */
  lemma {:induction false} FlattenBalanced(ns: seq<Node>, names: seq<string>)
    requires WellFormed(ns)
    ensures OpenAfter(names, Flatten(ns)) == Some(names)
    decreases ns
  {
    if ns != [] {
      OpenAfterConcat(names, FlattenNode(ns[0]), Flatten(ns[1..]));
      FlattenBalanced(ns[1..], names);
      match ns[0]
      case Leaf(t) =>
        assert [t][1..] == [];
      case Section(inverted, name, body) =>
        var inner := names + [name];
        var open, close := [Open(inverted, name)], [Close(name)];
        assert open + Flatten(body) + close == open + (Flatten(body) + close);
        assert (open + (Flatten(body) + close))[1..] == Flatten(body) + close;
        OpenAfterConcat(inner, Flatten(body), close);
        FlattenBalanced(body, inner);
        assert inner[..|inner| - 1] == names && close[1..] == [];
    }
  }

  /** Nodes at the head of `ts`, up to a closing tag or the end. */
  function Parse(ts: seq<Token>): (r: Option<(seq<Node>, seq<Token>)>)
    ensures r.Some? ==>
              && WellFormed(r.value.0)
              && ts == Flatten(r.value.0) + r.value.1
              && (r.value.1 == [] || r.value.1[0].Close?)
    decreases |ts|
  {
    if ts == [] || ts[0].Close? then
      assert ts == [] + ts;
      Some(([], ts))
    else if ts[0].Open? then
      var Open(inverted, name) := ts[0];
      match Parse(ts[1..])
      case None => None
      case Some((body, after)) =>
        if after == [] || after[0] != Close(name) then None
        else
          match Parse(after[1..])
          case None => None
          case Some((ns, rest)) =>
            ParsedSection(ts, inverted, name, body, after, ns, rest);
            Some(([Section(inverted, name, body)] + ns, rest))
    else
      match Parse(ts[1..])
      case None => None
      case Some((ns, rest)) =>
        ParsedLeaf(ts, ns, rest);
        Some(([Leaf(ts[0])] + ns, rest))
  }

  lemma ParsedSection(ts: seq<Token>, inverted: bool, name: string, body: seq<Node>, after: seq<Token>, ns: seq<Node>, rest: seq<Token>)
    requires ts != [] && ts[0] == Open(inverted, name) && after != [] && after[0] == Close(name)
    requires ts[1..] == Flatten(body) + after && after[1..] == Flatten(ns) + rest
    ensures ts == Flatten([Section(inverted, name, body)] + ns) + rest
  {
    var n := Section(inverted, name, body);
    assert ([n] + ns)[1..] == ns;
    assert ts == [ts[0]] + ts[1..] && after == [after[0]] + after[1..];
  }

  lemma ParsedLeaf(ts: seq<Token>, ns: seq<Node>, rest: seq<Token>)
    requires ts != [] && ts[1..] == Flatten(ns) + rest
    ensures ts == Flatten([Leaf(ts[0])] + ns) + rest
  {
    assert ([Leaf(ts[0])] + ns)[1..] == ns;
    assert ts == [ts[0]] + ts[1..];
  }

  /** When no nodes can be read, more sections are open at the end than at the start. */
  lemma {:induction false} ParseFails(ts: seq<Token>, names: seq<string>)
    requires Parse(ts) == None
    ensures match OpenAfter(names, ts) case None => true case Some(m) => |m| > |names|
    decreases |ts|
  {
    if ts[0].Open? {
      var name := ts[0].name;
      var inner := names + [name];
      match Parse(ts[1..])
      case None =>
        ParseFails(ts[1..], inner);
      case Some((body, after)) =>
        OpenAfterConcat(inner, Flatten(body), after);
        FlattenBalanced(body, inner);
        if after != [] && after[0] == Close(name) {
          assert inner[..|inner| - 1] == names;
          ParseFails(after[1..], names);
        }
    } else {
      ParseFails(ts[1..], names);
    }
  }

  /** Balanced tag sequences are exactly the flattenings of nested nodes. */
  lemma BalancedIffNested(ts: seq<Token>)
    ensures Balanced(ts) <==> exists ns :: WellFormed(ns) && Flatten(ns) == ts
    ensures Balanced(ts) <==> Parse(ts).Some? && Parse(ts).value.1 == []
  {
    if Balanced(ts) {
      if Parse(ts) == None {
        ParseFails(ts, []);
      } else {
        var (ns, rest) := Parse(ts).value;
        OpenAfterConcat([], Flatten(ns), rest);
        FlattenBalanced(ns, []);
        assert rest == [];
        assert Flatten(ns) + rest == Flatten(ns);
        assert WellFormed(ns) && Flatten(ns) == ts;
      }
    }
    if ns :| WellFormed(ns) && Flatten(ns) == ts {
      FlattenBalanced(ns, []);
    }
    if Parse(ts).Some? && Parse(ts).value.1 == [] {
      assert Flatten(Parse(ts).value.0) + [] == Flatten(Parse(ts).value.0);
      FlattenBalanced(Parse(ts).value.0, []);
    }
  }
}
