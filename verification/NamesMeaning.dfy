/**
 What names and templates say, in terms of the JSON value alone: plain keys,
 dotted and pointer paths, conditions, alternatives and escapes of
 src/units/apply-mustach.c, and the sections of src/mustach/mustach.c over them.
 */
module NamesMeaning {
  import opened Json
  import opened Names
  import opened Options

  // ------------------------------------------------------------------ plain names

  /** A key without special characters. */
  predicate Plain(k: string) {
    k != "" && k[0] != '/' && forall i :: 0 <= i < |k| ==> k[i] !in {'=', '.', '\\', ':'}
  }

  /** A path without condition, escape and leading slash. */
  predicate Bare(k: string) {
    (k != "" ==> k[0] != '/') && forall i :: 0 <= i < |k| ==> k[i] !in {'=', '\\'}
  }

  lemma {:induction false} BareKey(k: string, v: string)
    requires forall i :: 0 <= i < |k| ==> k[i] !in {'=', '\\'}
    ensures KeyVal(k, false) == (k, None) && KeyVal(k + "=" + v, false) == (k, Some(v))
    decreases |k|
  {
    var t := k + "=" + v;
    if k == "" {
      assert t == "=" + v && t[1..] == v;
    } else {
      assert t[0] == k[0] && t[1..] == k[1..] + "=" + v;
      BareKey(k[1..], v);
      assert k == [k[0]] + k[1..];
    }
  }

  lemma {:induction false} PlainComponent(k: string, rest: string)
    requires forall i :: 0 <= i < |k| ==> k[i] !in {'.', '\\'}
    ensures Component(k, false) == (k, "") && Component(k + "." + rest, false) == (k, rest)
    decreases |k|
  {
    var t := k + "." + rest;
    if k == "" {
      assert t == "." + rest && t[1..] == rest;
    } else {
      assert t[0] == k[0] && t[1..] == k[1..] + "." + rest;
      PlainComponent(k[1..], rest);
      assert k == [k[0]] + k[1..];
    }
  }

  lemma PlainIsSpecificFree(k: string)
    requires ':' !in k
    ensures Globalise(k) == None
  {
    assert forall i :: 0 <= i < |k| ==> k[i] in k;
  }

  /** The scope at `i` is the innermost one that has the key. */
  ghost predicate Has(scopes: seq<Json>, k: string, i: int) {
    0 <= i < |scopes| && Lookup(scopes[i], k).Some? && forall j :: i < j < |scopes| ==> Lookup(scopes[j], k) == None
  }

  ghost predicate HasNot(scopes: seq<Json>, k: string) {
    forall j :: 0 <= j < |scopes| ==> Lookup(scopes[j], k) == None
  }

  lemma SearchIs(scopes: seq<Json>, k: string, i: int)
    requires ':' !in k
    ensures Has(scopes, k, i) ==> FindFirst(scopes, k) == Lookup(scopes[i], k)
    ensures HasNot(scopes, k) ==> FindFirst(scopes, k) == None
  {
    PlainIsSpecificFree(k);
    var at := InnermostIsLast(scopes, |scopes|, k);
  }

  lemma BareName(scopes: seq<Json>, k: string, text: Json -> string)
    requires scopes != [] && Bare(k)
    ensures FindName(scopes, k, text) == FindPath(scopes, k, false)
  {
    BareKey(k, "");
  }

  /** A plain key denotes its value in the innermost scope that has it, and nothing when none has. */
  lemma PlainKey(scopes: seq<Json>, k: string, text: Json -> string, i: int)
    requires scopes != [] && Plain(k)
    ensures Has(scopes, k, i) ==> FindName(scopes, k, text) == Lookup(scopes[i], k).value
    ensures HasNot(scopes, k) ==> FindName(scopes, k, text) == Null
  {
    PlainNames(k);
    BareName(scopes, k, text);
    PlainComponent(k, "");
    SearchIs(scopes, k, i);
  }

  lemma PlainNames(k: string)
    requires Plain(k)
    ensures ':' !in k && '.' !in k && Bare(k) && k != "."
  {
  }

  /** The dot denotes the innermost scope. */
  lemma Dot(scopes: seq<Json>, text: Json -> string)
    requires scopes != []
    ensures FindName(scopes, ".", text) == scopes[|scopes| - 1]
  {
    BareName(scopes, ".", text);
  }

  /** A field of a value, or nothing. */
  function FieldOf(o: Json, k: string): Json {
    if Lookup(o, k).Some? then Lookup(o, k).value else Null
  }

  /** a.b denotes the field b of what a denotes. */
  lemma Dotted(scopes: seq<Json>, a: string, b: string, text: Json -> string)
    requires scopes != [] && Plain(a) && Plain(b)
    ensures FindName(scopes, a + "." + b, text) == FieldOf(FindName(scopes, a, text), b)
  {
    PlainNames(a);
    PlainNames(b);
    var n := a + "." + b;
    assert n[0] == a[0] && |n| > 1;
    assert forall i :: 0 <= i < |n| ==> n[i] == (if i < |a| then a[i] else if i == |a| then '.' else b[i - |a| - 1]);
    BareName(scopes, n, text);
    BareName(scopes, a, text);
    PlainComponent(a, b);
    PlainComponent(b, "");
    if FindFirst(scopes, a).Some? {
      var o := FindFirst(scopes, a).value;
      SearchIs([o], b, 0);
      assert Has([o], b, 0) || HasNot([o], b);
      DescendOne(o, b, false);
    }
  }

  /** Following one component. */
  lemma DescendOne(o: Json, b: string, isptr: bool)
    requires b != "" && Component(b, isptr) == (b, "")
    ensures Descend(o, b, isptr) == if FindFirst([o], b).Some? then FindFirst([o], b).value else Null
  {
    assert forall r :: Descend(r, "", isptr) == r;
  }

  // --------------------------------------------------------------------- pointers

  /** A token of a pointer without special characters. */
  predicate Token(k: string) {
    k != "" && forall i :: 0 <= i < |k| ==> k[i] !in {'=', '/', '~', ':'}
  }

  lemma {:induction false} TokenKey(k: string)
    requires forall i :: 0 <= i < |k| ==> k[i] !in {'=', '~'}
    ensures KeyVal(k, true) == (k, None)
    decreases |k|
  {
    if k != "" {
      TokenKey(k[1..]);
      assert k == [k[0]] + k[1..];
    }
  }

  lemma {:induction false} TokenComponent(k: string, rest: string)
    requires forall i :: 0 <= i < |k| ==> k[i] !in {'/', '~'}
    ensures Component(k, true) == (k, "") && Component(k + "/" + rest, true) == (k, rest)
    decreases |k|
  {
    var t := k + "/" + rest;
    if k == "" {
      assert t == "/" + rest && t[1..] == rest;
    } else {
      assert t[0] == k[0] && t[1..] == k[1..] + "/" + rest;
      TokenComponent(k[1..], rest);
      assert k == [k[0]] + k[1..];
    }
  }

  /** /a/b denotes the field b of the field a of the innermost scope that has one. */
  lemma Pointer(scopes: seq<Json>, a: string, b: string, text: Json -> string, i: int)
    requires scopes != [] && Token(a) && Token(b)
    ensures Has(scopes, a, i) ==> FindName(scopes, "/" + a + "/" + b, text) == FieldOf(Lookup(scopes[i], a).value, b)
    ensures HasNot(scopes, a) ==> FindName(scopes, "/" + a + "/" + b, text) == Null
  {
    var n, k := "/" + a + "/" + b, a + "/" + b;
    assert n[1..] == k && n[0] == '/';
    assert forall i :: 0 <= i < |k| ==> k[i] == (if i < |a| then a[i] else if i == |a| then '/' else b[i - |a| - 1]);
    TokenKey(k);
    TokenComponent(a, b);
    TokenComponent(b, "");
    assert ':' !in a && ':' !in b && |k| > 1;
    SearchIs(scopes, a, i);
    if FindFirst(scopes, a).Some? {
      var o := FindFirst(scopes, a).value;
      SearchIs([o], b, 0);
      assert Has([o], b, 0) || HasNot([o], b);
      DescendOne(o, b, true);
    }
  }

  // ------------------------------------------------------------------- conditions

  /** A value to compare with, without special characters. */
  predicate PlainValue(v: string) {
    v != "" && v[0] != '!' && forall i :: 0 <= i < |v| ==> v[i] !in {'|', '\\'}
  }

  lemma {:induction false} PlainAlternative(v: string, rest: string)
    requires forall i :: 0 <= i < |v| ==> v[i] !in {'|', '\\'}
    ensures FirstValue(v) == (v, "") && FirstValue(v + "|" + rest) == (v, rest)
    decreases |v|
  {
    var t := v + "|" + rest;
    if v == "" {
      assert t == "|" + rest && t[1..] == rest;
    } else {
      assert t[0] == v[0] && t[1..] == v[1..] + "|" + rest;
      PlainAlternative(v[1..], rest);
      assert v == [v[0]] + v[1..];
    }
  }

  lemma ConditionName(scopes: seq<Json>, k: string, v: string, text: Json -> string)
    requires scopes != [] && Bare(k)
    ensures var o := FindName(scopes, k, text);
            FindName(scopes, k + "=" + v, text) == if Accepts(v, text(o)) then o else Null
  {
    var n := k + "=" + v;
    assert n[0] == if k == "" then '=' else k[0];
    BareKey(k, v);
    BareName(scopes, k, text);
  }

  lemma AmongOne(v: string, t: string)
    requires PlainValue(v)
    ensures AmongValues(v, t) <==> t == v
  {
    PlainAlternative(v, "");
    assert !AmongValues("", t);
  }

  /** k=v is the value of k when its text is v, and nothing otherwise. */
  lemma Equal(scopes: seq<Json>, k: string, v: string, text: Json -> string)
    requires scopes != [] && Bare(k) && PlainValue(v)
    ensures var o := FindName(scopes, k, text);
            FindName(scopes, k + "=" + v, text) == if text(o) == v then o else Null
  {
    ConditionName(scopes, k, v, text);
    AmongOne(v, text(FindName(scopes, k, text)));
  }

  /** k=!v is the value of k when its text is not v, and nothing otherwise. */
  lemma NotEqual(scopes: seq<Json>, k: string, v: string, text: Json -> string)
    requires scopes != [] && Bare(k) && PlainValue(v)
    ensures var o := FindName(scopes, k, text);
            FindName(scopes, k + "=!" + v, text) == if text(o) == v then Null else o
  {
    var w := "!" + v;
    assert k + "=!" + v == k + "=" + w && w[1..] == v;
    ConditionName(scopes, k, w, text);
    AmongOne(v, text(FindName(scopes, k, text)));
  }

  /** k=v|w and k=!v|w test for one of two texts. */
  lemma OneOfTwo(scopes: seq<Json>, k: string, v: string, w: string, text: Json -> string)
    requires scopes != [] && Bare(k) && PlainValue(v) && PlainValue(w)
    ensures var o := FindName(scopes, k, text);
            && FindName(scopes, k + "=" + (v + "|" + w), text) == (if text(o) in {v, w} then o else Null)
            && FindName(scopes, k + "=" + ("!" + (v + "|" + w)), text) == (if text(o) in {v, w} then Null else o)
  {
    var u := v + "|" + w;
    assert u[0] == v[0] && ("!" + u)[1..] == u;
    ConditionName(scopes, k, u, text);
    ConditionName(scopes, k, "!" + u, text);
    PlainAlternative(v, w);
    AmongOne(w, text(FindName(scopes, k, text)));
    assert u != "" && AmongValues(u, text(FindName(scopes, k, text))) <==> text(FindName(scopes, k, text)) in {v, w};
  }

  // ----------------------------------------------------------------- alternatives

  lemma {:induction false} NoBars(a: string, b: string)
    requires '|' !in a
    ensures SplitBars(a) == (a, "") && SplitBars(a + "||" + b) == (a, b)
    decreases |a|
  {
    var t := a + "||" + b;
    if a == "" {
      assert t == "||" + b && t[2..] == b;
    } else {
      assert t[0] == a[0] && t[1..] == a[1..] + "||" + b && a[0] in a;
      NoBars(a[1..], b);
      assert a == [a[0]] + a[1..];
    }
  }

  /** A section name is one name, or the first of two that denotes something. */
  lemma FirstOfTwo(scopes: seq<Json>, a: string, b: string, text: Json -> string)
    requires scopes != [] && a != "" && b != "" && '|' !in a && '|' !in b
    ensures FindOr(scopes, a, text) == FindName(scopes, a, text)
    ensures FindOr(scopes, a + "||" + b, text) ==
            if FindName(scopes, a, text) != Null then FindName(scopes, a, text) else FindName(scopes, b, text)
  {
    NoBars(a, b);
    NoBars(b, "");
    assert FindOr(scopes, "", text) == Null;
  }

  // ---------------------------------------------------------------- globalisation

  /** A segment after a colon gives way to a star. */
  lemma StarKey(a: string, b: string)
    requires b != "" && b[0] != '*' && ':' !in b
    ensures Globalise(a + ":" + b) == Some(a + ":*")
  {
    var k, f := a + ":" + b, LastSpecific(a + ":" + b, |a + ":" + b|);
    assert Specific(k, |a|);
    forall i | |a| < i < |k| ensures !Specific(k, i) { assert k[i] == b[i - |a| - 1] && b[i - |a| - 1] in b; }
    assert f == |a|;
    assert k[..f + 1] + "*" == a + ":*";
  }

  /** a:b falls back to a:* when no scope has it, whatever scopes have that. */
  lemma StarFound(scopes: seq<Json>, a: string, b: string, text: Json -> string, i: int)
    requires scopes != [] && Plain(a) && Plain(b) && b[0] != '*' && HasNot(scopes, a + ":" + b)
    ensures Has(scopes, a + ":*", i) ==> FindName(scopes, a + ":" + b, text) == Lookup(scopes[i], a + ":*").value
    ensures HasNot(scopes, a + ":*") ==> FindName(scopes, a + ":" + b, text) == Null
  {
    PlainNames(a);
    PlainNames(b);
    var k, g := a + ":" + b, a + ":*";
    assert k[0] == a[0] && |k| > 1;
    assert forall i :: 0 <= i < |k| ==> k[i] == (if i < |a| then a[i] else if i == |a| then ':' else b[i - |a| - 1]);
    BareName(scopes, k, text);
    PlainComponent(k, "");
    StarKey(a, b);
    StarLast(a);
    var at := InnermostIsLast(scopes, |scopes|, k);
    var star := InnermostIsLast(scopes, |scopes|, g);
    assert FindFirst(scopes, g) == Innermost(scopes, |scopes|, g);
    assert FindFirst(scopes, k) == FindFirst(scopes, g);
    assert FindPath(scopes, k, false) == if FindFirst(scopes, k).Some? then Descend(FindFirst(scopes, k).value, "", false) else Null;
    assert forall o: Json :: Descend(o, "", false) == o;
  }

  lemma StarLast(a: string)
    requires ':' !in a
    ensures Globalise(a + ":*") == None
  {
    var g := a + ":*";
    forall i | 0 <= i < |g| ensures !Specific(g, i) {
      if i < |a| { assert g[i] == a[i] && a[i] in a; }
    }
  }

  // ---------------------------------------------------------------------- escapes

  /** A character of a component, written so that it does not end it. */
  function WrittenChar(c: char): string {
    if c == '.' then "\\." else if c == '\\' then "\\\\" else [c]
  }

  function Written(k: string): string {
    if k == "" then "" else WrittenChar(k[0]) + Written(k[1..])
  }

  /** Any key can be written as a component: dots and backslashes after a backslash. */
  lemma {:induction false} WrittenRead(k: string, rest: string)
    ensures Component(Written(k), false) == (k, "") && Component(Written(k) + "." + rest, false) == (k, rest)
    decreases |k|
  {
    if k == "" {
      assert "" + "." + rest == "." + rest && ("." + rest)[1..] == rest;
    } else {
      var more := Written(k[1..]);
      WrittenRead(k[1..], rest);
      OneWritten(k[0], more);
      OneWritten(k[0], more + "." + rest);
      assert WrittenChar(k[0]) + more + "." + rest == WrittenChar(k[0]) + (more + "." + rest);
      assert k == [k[0]] + k[1..];
    }
  }

  lemma OneWritten(c: char, more: string)
    ensures var (k, rest) := Component(more, false); Component(WrittenChar(c) + more, false) == ([c] + k, rest)
  {
    var w := WrittenChar(c);
    var s := w + more;
    assert s[|w|..] == more && s[0] == w[0] && (|w| == 2 ==> s[1] == w[1]);
  }

  function WrittenValueChar(c: char): string {
    if c == '|' then "\\|" else if c == '\\' then "\\\\" else [c]
  }

  function WrittenValue(v: string): string {
    if v == "" then "" else WrittenValueChar(v[0]) + WrittenValue(v[1..])
  }

  /** So can any value to compare with. */
  lemma {:induction false} WrittenValueRead(v: string, rest: string)
    ensures FirstValue(WrittenValue(v)) == (v, "") && FirstValue(WrittenValue(v) + "|" + rest) == (v, rest)
    decreases |v|
  {
    if v == "" {
      assert "" + "|" + rest == "|" + rest && ("|" + rest)[1..] == rest;
    } else {
      var more := WrittenValue(v[1..]);
      WrittenValueRead(v[1..], rest);
      OneWrittenValue(v[0], more);
      OneWrittenValue(v[0], more + "|" + rest);
      assert WrittenValueChar(v[0]) + more + "|" + rest == WrittenValueChar(v[0]) + (more + "|" + rest);
      assert v == [v[0]] + v[1..];
    }
  }

  lemma OneWrittenValue(c: char, more: string)
    ensures var (v, rest) := FirstValue(more); FirstValue(WrittenValueChar(c) + more) == ([c] + v, rest)
  {
    var w := WrittenValueChar(c);
    var s := w + more;
    assert s[|w|..] == more && s[0] == w[0] && (|w| == 2 ==> s[1] == w[1]);
  }

  /** An equal sign after a backslash, or in a pointer after a tilde, belongs to the key. */
  lemma EqualInKey(a: string, b: string, v: string)
    requires forall i :: 0 <= i < |a| ==> a[i] !in {'=', '\\', '~'}
    requires forall i :: 0 <= i < |b| ==> b[i] !in {'=', '\\', '~'}
    ensures KeyVal(a + "\\=" + (b + "=" + v), false) == (a + "=" + b, Some(v))
    ensures KeyVal(a + "~=" + (b + "=" + v), true) == (a + "=" + b, Some(v))
    decreases |a|
  {
    var s, t, more := a + "\\=" + (b + "=" + v), a + "~=" + (b + "=" + v), b + "=" + v;
    if a == "" {
      assert s == "\\=" + more && t == "~=" + more && s[2..] == t[2..] == more;
      BareKey(b, v);
      PointerKey(b, v);
      assert "" + "=" + b == "=" + b;
    } else {
      assert s[0] == t[0] == a[0] && s[1..] == a[1..] + "\\=" + more && t[1..] == a[1..] + "~=" + more;
      EqualInKey(a[1..], b, v);
      assert a + "=" + b == [a[0]] + (a[1..] + "=" + b);
    }
  }

  lemma {:induction false} PointerKey(k: string, v: string)
    requires forall i :: 0 <= i < |k| ==> k[i] !in {'=', '~'}
    ensures KeyVal(k + "=" + v, true) == (k, Some(v))
    decreases |k|
  {
    var t := k + "=" + v;
    if k == "" {
      assert t == "=" + v && t[1..] == v;
    } else {
      assert t[0] == k[0] && t[1..] == k[1..] + "=" + v;
      PointerKey(k[1..], v);
      assert k == [k[0]] + k[1..];
    }
  }
}
