/** Path strings and their components (the scan of `process`, src/utils/path-entry.c). */
module Paths {
  import opened TextLines

  type Path = seq<string>

  /** Length of the name at the head of a string. */
  function NameLength(s: string): (n: nat)
    ensures n <= |s| && '/' !in s[..n] && (n < |s| ==> s[n] == '/')
  {
    UpTo(s, '/')
  }

  /** Number of slashes at the head of a string. */
  function SlashLength(s: string): (n: nat)
    ensures n <= |s| && (forall i :: 0 <= i < n ==> s[i] == '/') && (n < |s| ==> s[n] != '/')
  {
    if s == "" || s[0] != '/' then 0 else 1 + SlashLength(s[1..])
  }

  /** The names between slashes, empty ones dropped. */
  function Components(s: string): (p: Path)
    ensures IsPath(p)
    decreases |s|
  {
    if s == "" then []
    else if s[0] == '/' then Components(s[1..])
    else [s[..NameLength(s)]] + Components(s[NameLength(s)..])
  }

  predicate IsName(n: string) {
    n != "" && '/' !in n
  }

  predicate IsPath(p: Path) {
    forall i :: 0 <= i < |p| ==> IsName(p[i])
  }

  lemma {:induction false} ComponentsSkip(s: string, n: nat)
    requires n <= |s| && forall i :: 0 <= i < n ==> s[i] == '/'
    ensures Components(s) == Components(s[n..])
    decreases n
  {
    if n > 0 {
      ComponentsSkip(s[1..], n - 1);
      assert s[1..][n - 1..] == s[n..];
    } else {
      assert s[0..] == s;
    }
  }

  lemma ComponentsHead(s: string)
    requires s != "" && s[0] != '/'
    ensures var n := NameLength(s);
            IsName(s[..n]) && Components(s) == [s[..n]] + Components(s[n..])
  {
  }

  /** One turn of the scan: a name, then the slashes after it. */
  lemma NextComponent(path: string, beg: nat)
    requires beg < |path| && path[beg] != '/'
    ensures var rest := path[beg..];
            var n := NameLength(rest);
            var next := beg + n + SlashLength(rest[n..]);
            && IsName(rest[..n]) && beg < next <= |path| && (next < |path| ==> path[next] != '/')
            && Components(rest) == [rest[..n]] + Components(path[next..])
  {
    hide Components, NameLength, SlashLength;
    var rest := path[beg..];
    var n := NameLength(rest);
    var gap := SlashLength(rest[n..]);
    ComponentsHead(rest);
    ComponentsSkip(rest[n..], gap);
    assert rest[n..][gap..] == path[beg + n + gap..];
  }

  /** The scan skips leading slashes first. */
  lemma FirstComponent(path: string)
    ensures Components(path) == Components(path[SlashLength(path)..])
  {
    ComponentsSkip(path, SlashLength(path));
  }

  /** A path written with a slash before every name but perhaps the first. */
  function Join(p: Path, lead: bool): string {
    if p == [] then ""
    else Join(p[..|p| - 1], lead) + (if |p| > 1 || lead then "/" else "") + p[|p| - 1]
  }

  lemma {:induction false} ComponentsConcat(a: string, b: string)
    requires b == "" || b[0] == '/'
    ensures Components(a + b) == Components(a) + Components(b)
    decreases |a|
  {
    if a == "" {
      assert a + b == b;
    } else if a[0] == '/' {
      assert (a + b)[1..] == a[1..] + b;
      ComponentsConcat(a[1..], b);
    } else {
      var n := NameLength(a);
      NameLengthOf(a, b);
      assert (a + b)[..n] == a[..n] && (a + b)[n..] == a[n..] + b;
      ComponentsConcat(a[n..], b);
    }
  }

  lemma {:induction false} NameLengthOf(a: string, b: string)
    requires b == "" || b[0] == '/'
    ensures NameLength(a + b) == NameLength(a)
  {
    if a == "" {
      assert a + b == b;
    } else if a[0] != '/' {
      assert (a + b)[1..] == a[1..] + b;
      NameLengthOf(a[1..], b);
    }
  }

  lemma NameLengthAll(s: string)
    requires '/' !in s
    ensures NameLength(s) == |s|
  {
    UpToAll(s, '/');
  }

  /** Writing a path and reading it back. */
  lemma {:induction false} JoinComponents(p: Path, lead: bool)
    requires IsPath(p)
    ensures Components(Join(p, lead)) == p
  {
    if p != [] {
      var q, n := p[..|p| - 1], p[|p| - 1];
      JoinComponents(q, lead);
      NameLengthAll(n);
      assert IsName(n);
      assert n[|n|..] == "" && n[..|n|] == n;
      assert Components(n) == [n];
      if |p| > 1 || lead {
        var tail := "/" + n;
        assert tail[1..] == n;
        assert Join(p, lead) == Join(q, lead) + tail;
        ComponentsConcat(Join(q, lead), tail);
      } else {
        assert Join(p, lead) == n;
      }
      assert q + [n] == p;
    }
  }

  lemma JoinSingle(x: string)
    ensures Join([x], false) == x
  {
    var p: Path := [x];
    assert p[..|p| - 1] == [] && p[|p| - 1] == x;
    assert Join(p, false) == Join([], false) + "" + x;
  }

  lemma OneName(x: string)
    requires IsName(x)
    ensures Components(x) == [x]
  {
    hide Components;
    JoinSingle(x);
    JoinComponents([x], false);
  }
}
