/**
 Resolution of tag names against the stack of JSON scopes
 (src/units/apply-mustach.c): key/value splitting, unescaping of components,
 globalisation of keys and the scope search.

 This module is the meaning of a name on strings; `NamesInPlace` rewrites the
 C buffers in place and is proved to compute the same.
 */
module Names {
  import opened Json
  import opened Options

  // ---------------------------------------------------------------- components

  function Separator(isptr: bool): char {
    if isptr then '/' else '.'
  }

  /** Number of characters read by one turn of the unescaping loop of `first`. */
  function UnitLength(s: string, isptr: bool): nat
    requires s != ""
    ensures 1 <= UnitLength(s, isptr) <= |s|
  {
    if isptr then
      if s[0] == '~' && |s| > 1 && (s[1] == '0' || s[1] == '1') then 2 else 1
    else
      if s[0] == '\\' && |s| > 1 && (s[1] == '.' || s[1] == '\\') then 2 else 1
  }

  /** Character written by one turn of that loop. */
  function UnitChar(s: string, isptr: bool): char
    requires s != ""
  {
    if UnitLength(s, isptr) == 1 then s[0]
    else if isptr then (if s[1] == '1' then '/' else '~')
    else s[1]
  }

  /** The unescaped first component and the text after its separator. */
  function Component(s: string, isptr: bool): (string, string)
  {
    if s == "" then ("", "")
    else if s[0] == Separator(isptr) then ("", s[1..])
    else
      var (c, rest) := Component(s[UnitLength(s, isptr)..], isptr);
      ([UnitChar(s, isptr)] + c, rest)
  }

  // --------------------------------------------- RFC 6901, section 4: two steps

  /** Replaces every occurrence of `~` followed by `digit`, left to right. */
  function ReplaceTilde(s: string, digit: char, sub: char): string {
    if |s| < 2 then s
    else if s[0] == '~' && s[1] == digit then [sub] + ReplaceTilde(s[2..], digit, sub)
    else [s[0]] + ReplaceTilde(s[1..], digit, sub)
  }

  /** Evaluation of an escaped reference token by section 4 of RFC 6901. */
  function Rfc6901(s: string): string {
    ReplaceTilde(ReplaceTilde(s, '1', '/'), '0', '~')
  }

  /** The reference token of a pointer and what follows its slash. */
  function SplitSlash(s: string): (string, string) {
    if s == "" then ("", "")
    else if s[0] == '/' then ("", s[1..])
    else var (c, rest) := SplitSlash(s[1..]); ([s[0]] + c, rest)
  }

  /** A reference token holds no slash. */
  lemma {:induction false} SplitSlashHead(s: string)
    ensures var (c, rest) := SplitSlash(s);
            && '/' !in c
            && ((s == c && rest == "") || s == c + "/" + rest)
  {
    if s != "" && s[0] != '/' {
      SplitSlashHead(s[1..]);
    }
  }

  /** The first step turns a plain head into itself and never makes a new `~0`. */
  lemma FirstStepHead(c: string)
    requires c != ""
    ensures var d := ReplaceTilde(c, '1', '/');
            if |c| > 1 && c[0] == '~' && c[1] == '1' then d == "/" + ReplaceTilde(c[2..], '1', '/')
            else |d| >= 1 && d[0] == c[0] && d[1..] == ReplaceTilde(c[1..], '1', '/')
    ensures var d := ReplaceTilde(c, '1', '/');
            d != "" && (d[0] == '0' <==> c[0] == '0')
  {
  }

  /** One pass over a token equals the two replacements of RFC 6901. */
  lemma {:induction false} UnescapeIsRfc6901(s: string)
    ensures var (c, rest) := SplitSlash(s);
            Component(s, true) == (Rfc6901(c), rest)
  {
    if s == "" || s[0] == '/' {
    } else {
      SplitSlashHead(s);
      var (c, rest) := SplitSlash(s);
      FirstStepHead(c);
      var n := UnitLength(s, true);
      UnescapeIsRfc6901(s[n..]);
      var d := ReplaceTilde(c, '1', '/');
      if n == 1 {
        assert c[1..] == SplitSlash(s[1..]).0;
        if |c| > 1 {
          FirstStepHead(c[1..]);
        }
        assert ReplaceTilde(d, '0', '~') == [d[0]] + ReplaceTilde(d[1..], '0', '~');
      } else {
        assert s[1..][1..] == s[2..];
        assert SplitSlash(s[1..]) == ([s[1]] + SplitSlash(s[2..]).0, rest);
        assert c[2..] == SplitSlash(s[2..]).0;
        if s[1] == '1' {
          assert ReplaceTilde(d, '0', '~') == ['/'] + ReplaceTilde(d[1..], '0', '~');
        } else {
          assert c[1..][1..] == c[2..];
          FirstStepHead(c[1..]);
          assert d[2..] == d[1..][1..] == ReplaceTilde(c[2..], '1', '/');
        }
      }
    }
  }

  // -------------------------------------------------------------- key and value

  /** Splits "key=value" at the first bare `=`, unescaping the key. */
  function KeyVal(s: string, isptr: bool): (string, Option<string>)
  {
    if s == "" then ("", None)
    else if s[0] == '=' then ("", Some(s[1..]))
    else
      var n := KeyUnit(s, isptr);
      var (k, v) := KeyVal(s[n.0..], isptr);
      (n.1 + k, v)
  }

  /** Characters read and written by one turn of the loop of `keyval`. */
  function KeyUnit(s: string, isptr: bool): (r: (nat, string))
    requires s != ""
    ensures 1 <= r.0 <= |s| && |r.1| <= r.0
  {
    if isptr then
      if s[0] == '~' && |s| > 1 && s[1] == '=' then (2, "=") else (1, [s[0]])
    else if s[0] == '\\' && |s| > 1 && s[1] == '\\' then (2, "\\\\")
    else if s[0] == '\\' && |s| > 1 && s[1] == '=' then (2, "=")
    else (1, [s[0]])
  }

  lemma {:induction false} KeyShrinks(s: string, isptr: bool)
    ensures |KeyVal(s, isptr).0| <= |s|
  {
    if s != "" && s[0] != '=' {
      KeyShrinks(s[KeyUnit(s, isptr).0..], isptr);
    }
  }

  /** Characters read, and the character written, by one turn of the loop of `value`. */
  function ValueUnit(s: string): (r: (nat, char))
    requires s != ""
    ensures 1 <= r.0 <= |s|
  {
    if s[0] == '\\' && |s| > 1 && (s[1] == '|' || s[1] == '\\') then (2, s[1]) else (1, s[0])
  }

  /** The first alternative of "value|value" and what follows. */
  function FirstValue(s: string): (string, string)
  {
    if s == "" then ("", "")
    else if s[0] == '|' then ("", s[1..])
    else
      var (n, w) := ValueUnit(s);
      var (c, rest) := FirstValue(s[n..]);
      ([w] + c, rest)
  }

  lemma {:induction false} FirstValueShrinks(s: string)
    requires s != ""
    ensures |FirstValue(s).1| < |s|
  {
    if s[0] != '|' && s[ValueUnit(s).0..] != "" {
      FirstValueShrinks(s[ValueUnit(s).0..]);
    }
  }

  /** Is `text` one of the alternatives of `v`? */
  predicate AmongValues(v: string, text: string)
    decreases |v|
  {
    v != "" &&
    (FirstValue(v).0 == text || (FirstValueShrinks(v); AmongValues(FirstValue(v).1, text)))
  }

  /** The value test of a name; a leading `!` negates it. */
  predicate Accepts(v: string, text: string) {
    if v != "" && v[0] == '!' then !AmongValues(v[1..], text) else AmongValues(v, text)
  }

  // -------------------------------------------------------------- globalisation

  /** Does the colon at `i` open a segment that is not yet `*`? */
  predicate Specific(key: string, i: int) {
    0 <= i < |key| - 1 && key[i] == ':' && key[i + 1] != '*'
  }

  /** Index of the last specific colon below `n`, or -1. */
  function LastSpecific(key: string, n: nat): (f: int)
    ensures f == -1 || (0 <= f < n && Specific(key, f))
    ensures forall i :: f < i < n ==> !Specific(key, i)
  {
    if n == 0 then -1
    else if Specific(key, n - 1) then n - 1
    else LastSpecific(key, n - 1)
  }

  /** Replaces the last specific segment by `*`, dropping what follows. */
  function Globalise(key: string): Option<string> {
    var f := LastSpecific(key, |key|);
    if f < 0 then None else Some(key[..f + 1] + "*")
  }

  ghost function Specifics(key: string): set<int> {
    set i | 0 <= i < |key| && Specific(key, i)
  }

  /** Every globalisation turns exactly one specific segment into `*`, the last. */
  lemma GlobaliseDropsLast(key: string)
    ensures Globalise(key) == None <==> Specifics(key) == {}
    ensures Globalise(key).Some? ==>
              var f := LastSpecific(key, |key|);
              && f in Specifics(key)
              && Specifics(Globalise(key).value) == Specifics(key) - {f}
              && |Specifics(Globalise(key).value)| == |Specifics(key)| - 1
  {
    var f := LastSpecific(key, |key|);
    if f >= 0 {
      var g := Globalise(key).value;
      assert f in Specifics(key);
      forall i
        ensures i in Specifics(g) <==> i in Specifics(key) - {f}
      {
        if 0 <= i < f {
          assert g[i] == key[i] && g[i + 1] == key[i + 1];
        }
      }
      assert Specifics(g) == Specifics(key) - {f};
    } else {
      assert Specifics(key) == {};
    }
  }

  /** The keys tried for a component, least globalised first. */
  function Keys(key: string): (ks: seq<string>)
    ensures |ks| >= 1 && ks[0] == key
    decreases |Specifics(key)|
  {
    match Globalise(key)
    case None => [key]
    case Some(g) => GlobaliseDropsLast(key); [key] + Keys(g)
  }

  // --------------------------------------------------------------------- search

  /** The hit of the innermost scope among the first `n`. */
  function Innermost(scopes: seq<Json>, n: nat, key: string): Option<Json>
    requires n <= |scopes|
  {
    if n == 0 then None
    else if Lookup(scopes[n - 1], key).Some? then Lookup(scopes[n - 1], key)
    else Innermost(scopes, n - 1, key)
  }

  /** Search of the first component: every scope for a key before the next key. */
  function FindFirst(scopes: seq<Json>, key: string): Option<Json>
    decreases |Specifics(key)|
  {
    if Innermost(scopes, |scopes|, key).Some? then Innermost(scopes, |scopes|, key)
    else match Globalise(key)
      case None => None
      case Some(g) => GlobaliseDropsLast(key); FindFirst(scopes, g)
  }

  /** Descent through the remaining components. */
  function Descend(o: Json, names: string, isptr: bool): Json
    decreases |names|
  {
    if names == "" then o
    else
      var (c, rest) := Component(names, isptr);
      match FindFirst([o], c)
      case None => Null
      case Some(r) => ComponentShrinks(names, isptr); Descend(r, rest, isptr)
  }

  lemma {:induction false} ComponentShrinks(s: string, isptr: bool)
    requires s != ""
    ensures |Component(s, isptr).1| < |s|
    ensures |Component(s, isptr).0| <= |s|
  {
    if s[0] != Separator(isptr) && s[UnitLength(s, isptr)..] != "" {
      ComponentShrinks(s[UnitLength(s, isptr)..], isptr);
    }
  }

  /** The object a path of components denotes. */
  function FindPath(scopes: seq<Json>, key: string, isptr: bool): Json
    requires scopes != []
  {
    if key == "." then scopes[|scopes| - 1]
    else if key == "" then Null
    else
      var (c, rest) := Component(key, isptr);
      match FindFirst(scopes, c)
      case None => Null
      case Some(o) => Descend(o, rest, isptr)
  }

  /** The object of a name "key['='value['|'value]...]". */
  function FindName(scopes: seq<Json>, name: string, text: Json -> string): Json
    requires scopes != []
  {
    var isptr := name != "" && name[0] == '/';
    var (key, v) := KeyVal(if isptr then name[1..] else name, isptr);
    var o := FindPath(scopes, key, isptr);
    if v == None || Accepts(v.value, text(o)) then o else Null
  }

  /** Splits at the first "||". */
  function SplitBars(s: string): (r: (string, string))
    ensures s != "" ==> |r.1| < |s|
  {
    if s == "" then ("", "")
    else if |s| > 1 && s[0] == '|' && s[1] == '|' then ("", s[2..])
    else var (a, b) := SplitBars(s[1..]); ([s[0]] + a, b)
  }

  /** The first alternative of "name['||'name]..." that denotes something. */
  function FindOr(scopes: seq<Json>, name: string, text: Json -> string): Json
    requires scopes != []
    decreases |name|
  {
    if name == "" then Null
    else
      var (a, rest) := SplitBars(name);
      var o := FindName(scopes, a, text);
      if o != Null then o else FindOr(scopes, rest, text)
  }

  // ------------------------------------------------- what the search guarantees

  /** The scope at `i` answers the `level`-th key. */
  ghost predicate Hit(scopes: seq<Json>, ks: seq<string>, level: int, i: int) {
    0 <= level < |ks| && 0 <= i < |scopes| && Lookup(scopes[i], ks[level]).Some?
  }

  ghost predicate NoHit(scopes: seq<Json>, ks: seq<string>) {
    forall level, i :: !Hit(scopes, ks, level, i)
  }

  /** (level, i) comes strictly before (level', i') in the search order. */
  ghost predicate Before(level: int, i: int, level': int, i': int) {
    level < level' || (level == level' && i > i')
  }

  lemma {:induction false} InnermostIsLast(scopes: seq<Json>, n: nat, key: string) returns (i: int)
    requires n <= |scopes|
    ensures Innermost(scopes, n, key) == None ==>
              forall j :: 0 <= j < n ==> Lookup(scopes[j], key) == None
    ensures Innermost(scopes, n, key).Some? ==>
              && 0 <= i < n && Lookup(scopes[i], key) == Innermost(scopes, n, key)
              && forall j :: i < j < n ==> Lookup(scopes[j], key) == None
  {
    i := n - 1;
    if n > 0 && Lookup(scopes[n - 1], key) == None {
      i := InnermostIsLast(scopes, n - 1, key);
    }
  }

  /**
   The search returns the first hit of the order "least globalised key, then
   innermost scope", and fails exactly when no scope knows any key.
   */
  lemma {:induction false} FindFirstIsLeast(scopes: seq<Json>, key: string) returns (level: int, i: int)
    ensures FindFirst(scopes, key) == None <==> NoHit(scopes, Keys(key))
    ensures FindFirst(scopes, key).Some? ==>
              && Hit(scopes, Keys(key), level, i)
              && Lookup(scopes[i], Keys(key)[level]) == FindFirst(scopes, key)
              && forall l, j :: Hit(scopes, Keys(key), l, j) ==> !Before(l, j, level, i)
    decreases |Specifics(key)|
  {
    var ks := Keys(key);
    level := 0;
    i := InnermostIsLast(scopes, |scopes|, key);
    if Innermost(scopes, |scopes|, key).Some? {
      assert Hit(scopes, ks, 0, i);
    } else {
      match Globalise(key)
      case None =>
        assert forall l, j :: Hit(scopes, ks, l, j) ==> l == 0;
      case Some(g) =>
        GlobaliseDropsLast(key);
        var tail := Keys(g);
        assert ks[1..] == tail;
        level, i := FindFirstIsLeast(scopes, g);
        assert forall l, j :: Hit(scopes, ks, l, j) ==> l >= 1 && Hit(scopes, tail, l - 1, j);
        assert FindFirst(scopes, key) == FindFirst(scopes, g);
        if FindFirst(scopes, key).Some? {
          assert Hit(scopes, tail, level, i);
          assert Hit(scopes, ks, level + 1, i);
        } else {
          assert NoHit(scopes, tail);
        }
        level := level + 1;
    }
  }

  // --------------------------------------------------------- results are bounded

  ghost predicate Within(scopes: seq<Json>, w: nat) {
    forall i :: 0 <= i < |scopes| ==> Width(scopes[i]) <= w
  }

  lemma FindFirstWidth(scopes: seq<Json>, key: string, w: nat)
    requires Within(scopes, w) && FindFirst(scopes, key).Some?
    ensures Width(FindFirst(scopes, key).value) <= w
  {
    var level, i := FindFirstIsLeast(scopes, key);
    LookupWidth(scopes[i], Keys(key)[level]);
  }

  lemma {:induction false} DescendWidth(o: Json, names: string, isptr: bool, w: nat)
    requires Width(o) <= w
    ensures Width(Descend(o, names, isptr)) <= w
    decreases |names|
  {
    if names != "" {
      var (c, rest) := Component(names, isptr);
      if FindFirst([o], c).Some? {
        FindFirstWidth([o], c, w);
        ComponentShrinks(names, isptr);
        DescendWidth(FindFirst([o], c).value, rest, isptr, w);
      }
    }
  }

  lemma FindNameWidth(scopes: seq<Json>, name: string, text: Json -> string, w: nat)
    requires scopes != [] && Within(scopes, w)
    ensures Width(FindName(scopes, name, text)) <= w
  {
    var isptr := name != "" && name[0] == '/';
    var (key, v) := KeyVal(if isptr then name[1..] else name, isptr);
    var (c, rest) := Component(key, isptr);
    if FindFirst(scopes, c).Some? {
      FindFirstWidth(scopes, c, w);
      DescendWidth(FindFirst(scopes, c).value, rest, isptr, w);
    }
  }

  /** Whatever a name denotes lies inside the scopes: its arrays are no longer. */
  lemma {:induction false} FindOrWidth(scopes: seq<Json>, name: string, text: Json -> string, w: nat)
    requires scopes != [] && Within(scopes, w)
    ensures Width(FindOr(scopes, name, text)) <= w
    decreases |name|
  {
    if name != "" {
      FindNameWidth(scopes, SplitBars(name).0, text, w);
      FindOrWidth(scopes, SplitBars(name).1, text, w);
    }
  }
}
