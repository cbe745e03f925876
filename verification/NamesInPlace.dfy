/**
 The name functions of src/units/apply-mustach.c on their C buffers: every
 string is rewritten where it stands, with the write position never passing
 the read position, and the result is what `Names` defines on strings.
 */
module NamesInPlace {
  import opened CStrings
  import opened Json
  import Names
  import opened Options

  /** What the read position still sees: the rest of the string, up to its null. */
  ghost predicate Reading(s: seq<char>, read: nat, end: nat, rest: string) {
    && read <= end < |s| && s[end] == NUL
    && rest == s[read..end] && NUL !in rest
  }

  lemma StartReading(s: seq<char>, p: nat) returns (end: nat)
    requires p < |s| && Ends(s, p)
    ensures end == p + |CStr(s, p)|
    ensures Reading(s, p, end, CStr(s, p))
  {
    CStrSlice(s, p);
    end := p + |CStr(s, p)|;
  }

  /** The part written so far. */
  ghost predicate Written(t: seq<char>, start: nat, write: nat, done: string) {
    start <= write <= |t| && t[start..write] == done && NUL !in done
  }

  /** Only cells from `start` up to, not including, `read` may have changed. */
  ghost predicate Frame(s: seq<char>, t: seq<char>, start: nat, read: nat) {
    start <= read <= |s| == |t| && t[..start] == s[..start] && t[read..] == s[read..]
  }

  /** A change that stops before `limit` leaves everything from there on. */
  lemma FrameTail(s: seq<char>, t: seq<char>, start: nat, read: nat, limit: nat)
    requires Frame(s, t, start, read) && read <= limit <= |s|
    ensures t[limit..] == s[limit..]
  {
    assert t[limit..] == t[read..][limit - read..];
    assert s[limit..] == s[read..][limit - read..];
  }

  /** What one and two more characters of lookahead show. */
  lemma Peek(s: seq<char>, t: seq<char>, start: nat, read: nat, end: nat, rest: string)
    requires Reading(s, read, end, rest) && Frame(s, t, start, read)
    ensures t[read] == s[read]
    ensures rest == "" <==> t[read] == NUL
    ensures rest != "" ==>
              && read + 1 <= end && rest[0] == t[read]
              && t[read + 1] == (if |rest| > 1 then rest[1] else NUL)
              && Reading(s, read + 1, end, rest[1..]) && Frame(s, t, start, read + 1)
    ensures |rest| > 1 ==> Reading(s, read + 2, end, rest[2..]) && Frame(s, t, start, read + 2)
  {
    assert forall i :: read <= i < |s| ==> t[i] == t[read..][i - read] == s[i];
  }

  /** Writes one character below the read position. */
  method Put(a: array<char>, ghost s: seq<char>, ghost start: nat, write: nat, ghost read: nat, c: char, ghost done: string)
    requires write < read <= a.Length && c != NUL
    requires Written(a[..], start, write, done) && Frame(s, a[..], start, read)
    modifies a
    ensures Written(a[..], start, write + 1, done + [c]) && Frame(s, a[..], start, read)
  {
    ghost var t := a[..];
    a[write] := c;
    assert a[..] == t[write := c];
    assert a[start..write + 1] == t[start..write] + [c];
  }

  method PutTwice(a: array<char>, ghost s: seq<char>, ghost start: nat, write0: nat, ghost read: nat, c: char, ghost done: string)
    returns (write: nat)
    requires write0 + 1 < read <= a.Length && c != NUL
    requires Written(a[..], start, write0, done) && Frame(s, a[..], start, read)
    modifies a
    ensures write == write0 + 2 && Written(a[..], start, write, done + [c, c]) && Frame(s, a[..], start, read)
  {
    hide Written, Frame;
    Put(a, s, start, write0, read, c, done);
    Put(a, s, start, write0 + 1, read, c, done + [c]);
    write := write0 + 2;
    assert done + [c] + [c] == done + [c, c];
  }

  /** Closes the written part: its C string is there, the C string at `next` is as it was. */
  method Close(a: array<char>, ghost s: seq<char>, ghost start: nat, write: nat, ghost read: nat,
               ghost end: nat, ghost next: nat, ghost done: string)
    requires Written(a[..], start, write, done) && Frame(s, a[..], start, read)
    requires write <= read <= next <= end < |s| && s[end] == NUL
    requires next > read || s[next] == NUL
    modifies a
    ensures CStr(a[..], start) == done && Ends(a[..], start)
    ensures CStr(a[..], next) == CStr(s, next) && Ends(a[..], next)
    ensures Frame(s, a[..], start, next)
  {
    ghost var t := a[..];
    a[write] := NUL;
    ghost var u := a[..];
    assert u == t[write := NUL];
    assert u[start..write] == t[start..write];
    assert forall i :: start <= i < write ==> u[i] == done[i - start];
    CStrIs(u, start, write);
    assert u[write] == NUL;
    assert forall i :: read <= i < |s| ==> t[i] == t[read..][i - read] == s[i];
    assert u[end] == NUL;
    CStrAgree(s, u, next);
  }

  /** All that holds between two turns of a loop that rewrites a string in place. */
  ghost predicate Rewriting(s: seq<char>, t: seq<char>, start: nat, write: nat, read: nat, end: nat, done: string, rest: string) {
    write <= read && Reading(s, read, end, rest) && Written(t, start, write, done) && Frame(s, t, start, read)
  }

  lemma StartRewriting(s: seq<char>, start: nat) returns (end: nat)
    requires start < |s| && Ends(s, start)
    ensures end == start + |CStr(s, start)|
    ensures Rewriting(s, s, start, start, start, end, "", CStr(s, start))
  {
    end := StartReading(s, start);
  }

  /** The character at the read position. */
  lemma Look(s: seq<char>, t: seq<char>, start: nat, write: nat, read: nat, end: nat, done: string, rest: string)
    requires Rewriting(s, t, start, write, read, end, done, rest)
    ensures write <= read <= end < |t| && (rest == "" <==> t[read] == NUL) && (rest != "" ==> rest[0] == t[read])
    ensures |done| == write - start && |rest| == end - read
  {
    Peek(s, t, start, read, end, rest);
  }

  /** Ends the written part and passes the separator, if there is one. */
  method Finish(a: array<char>, ghost s: seq<char>, ghost start: nat, write: nat, read: nat,
                ghost end: nat, ghost done: string, ghost rest: string) returns (next: nat)
    requires Rewriting(s, a[..], start, write, read, end, done, rest)
    modifies a
    ensures next == (if rest == "" then read else read + 1) && start + |done| <= read <= next <= end < a.Length
    ensures CStr(a[..], start) == done && Ends(a[..], start)
    ensures CStr(a[..], next) == (if rest == "" then "" else rest[1..]) && Ends(a[..], next) && next + |CStr(a[..], next)| == end
    ensures Frame(s, a[..], start, next)
  {
    Peek(s, a[..], start, read, end, rest);
    next := read + (if a[read] == NUL then 0 else 1);
    Close(a, s, start, write, read, end, next, done);
    CStrIs(s, next, end);
  }

  /** One turn of the loop of `keyval`. */
  method KeyTurn(a: array<char>, isptr: bool, start: nat, write0: nat, read0: nat,
                 ghost s: seq<char>, ghost end: nat, ghost done: string, ghost rest: string)
    returns (write: nat, read: nat)
    requires Rewriting(s, a[..], start, write0, read0, end, done, rest) && rest != ""
    modifies a
    ensures var (n, w) := Names.KeyUnit(rest, isptr);
            read == read0 + n && Rewriting(s, a[..], start, write, read, end, done + w, rest[n..])
  {
    write, read := write0, read0;
    Peek(s, a[..], start, read, end, rest);
    var c := a[read];
    if isptr {
      if c == '~' && a[read + 1] == '=' {
        read := read + 1;
        c := a[read];
      }
    } else if c == '\\' {
      if a[read + 1] == '\\' {
        write := PutTwice(a, s, start, write, read + 2, c, done);
        read := read + 2;
        assert [c, c] == "\\\\";
        return;
      } else if a[read + 1] == '=' {
        read := read + 1;
        c := a[read];
      }
    }
    Put(a, s, start, write, read + 1, c, done);
    write := write + 1;
    read := read + 1;
  }

  /** Cuts "key=value"; returns the position of the value or -1. */
  method KeyVal(a: array<char>, start: nat, isptr: bool) returns (v: int)
    requires start < a.Length && Ends(a[..], start)
    modifies a
    ensures var (key, val) := Names.KeyVal(old(CStr(a[..], start)), isptr);
            && CStr(a[..], start) == key
            && (val == None <==> v == -1)
            && (val.Some? ==> start + |key| < v < a.Length && Ends(a[..], v) && CStr(a[..], v) == val.value)
            && (val.Some? ==> v + |val.value| == start + |old(CStr(a[..], start))|)
    ensures Ends(a[..], start)
    ensures Frame(old(a[..]), a[..], start, if v == -1 then start + |old(CStr(a[..], start))| else v)
  {
    hide CStr, Ends, Reading, Written, Frame, Rewriting, Names.KeyUnit;
    ghost var s := a[..];
    ghost var all := CStr(s, start);
    ghost var end := StartRewriting(s, start);
    ghost var done, rest := "", all;
    var read, write: nat := start, start;
    assert done + Names.KeyVal(all, isptr).0 == Names.KeyVal(all, isptr).0;
    Look(s, a[..], start, write, read, end, done, rest);
    while a[read] != NUL && a[read] != '='
      invariant write <= read <= end < a.Length && Rewriting(s, a[..], start, write, read, end, done, rest)
      invariant Names.KeyVal(all, isptr) == (done + Names.KeyVal(rest, isptr).0, Names.KeyVal(rest, isptr).1)
      decreases end - read
    {
      Look(s, a[..], start, write, read, end, done, rest);
      KeyValTurn(all, done, rest, isptr);
      ghost var (n, w) := Names.KeyUnit(rest, isptr);
      write, read := KeyTurn(a, isptr, start, write, read, s, end, done, rest);
      done, rest := done + w, rest[n..];
      Look(s, a[..], start, write, read, end, done, rest);
    }
    Look(s, a[..], start, write, read, end, done, rest);
    KeyValEnd(rest, isptr);
    assert done + "" == done;
    var more := a[read] == '=';
    var next := Finish(a, s, start, write, read, end, done, rest);
    v := if more then next else -1;
  }

  lemma KeyValEnd(rest: string, isptr: bool)
    ensures rest == "" ==> Names.KeyVal(rest, isptr) == ("", None)
    ensures rest != "" && rest[0] == '=' ==> Names.KeyVal(rest, isptr) == ("", Some(rest[1..]))
  {
  }

  lemma KeyValTurn(all: string, done: string, rest: string, isptr: bool)
    requires rest != "" && rest[0] != '='
    requires Names.KeyVal(all, isptr) == (done + Names.KeyVal(rest, isptr).0, Names.KeyVal(rest, isptr).1)
    ensures var (n, w) := Names.KeyUnit(rest, isptr);
            var (k, v) := Names.KeyVal(rest[n..], isptr);
            Names.KeyVal(all, isptr) == ((done + w) + k, v)
  {
    var (n, w) := Names.KeyUnit(rest, isptr);
    var k := Names.KeyVal(rest[n..], isptr).0;
    assert done + (w + k) == (done + w) + k;
  }

  /** One turn of the loops of `first`. */
  method ComponentTurn(a: array<char>, isptr: bool, start: nat, write0: nat, read0: nat,
                       ghost s: seq<char>, ghost end: nat, ghost done: string, ghost rest: string)
    returns (write: nat, read: nat)
    requires Rewriting(s, a[..], start, write0, read0, end, done, rest) && rest != ""
    modifies a
    ensures var n := Names.UnitLength(rest, isptr);
            && read == read0 + n
            && Rewriting(s, a[..], start, write, read, end, done + [Names.UnitChar(rest, isptr)], rest[n..])
  {
    write, read := write0, read0;
    Peek(s, a[..], start, read, end, rest);
    var c := a[read];
    if isptr {
      if c == '~' {
        if a[read + 1] == '1' {
          c := '/';
          read := read + 1;
        } else if a[read + 1] == '0' {
          read := read + 1;
        }
      }
    } else if c == '\\' && (a[read + 1] == '.' || a[read + 1] == '\\') {
      read := read + 1;
      c := a[read];
    }
    Put(a, s, start, write, read + 1, c, done);
    write := write + 1;
    read := read + 1;
  }

  /** Unescapes and cuts the first component; `found` is false at the end of the name. */
  method First(a: array<char>, name: nat, isptr: bool) returns (found: bool, next: nat)
    requires name < a.Length && Ends(a[..], name)
    modifies a
    ensures found <==> old(CStr(a[..], name)) != ""
    ensures var (c, rest) := Names.Component(old(CStr(a[..], name)), isptr);
            && name + |c| <= next < a.Length
            && CStr(a[..], name) == c && Ends(a[..], name)
            && CStr(a[..], next) == rest && Ends(a[..], next)
    ensures next + |CStr(a[..], next)| == name + |old(CStr(a[..], name))|
    ensures Frame(old(a[..]), a[..], name, next)
  {
    hide CStr, Ends, Reading, Written, Frame, Rewriting, Names.UnitLength, Names.UnitChar;
    ghost var s := a[..];
    ghost var all := CStr(s, name);
    ghost var end := StartRewriting(s, name);
    ghost var done, rest := "", all;
    var read, write: nat := name, name;
    Look(s, a[..], name, write, read, end, done, rest);
    ComponentEnd(all, isptr);
    FrameSelf(s, name, name);
    if a[read] == NUL {
      return false, name;
    }
    var sep := Names.Separator(isptr);
    assert done + Names.Component(all, isptr).0 == Names.Component(all, isptr).0;
    while a[read] != NUL && a[read] != sep
      invariant write <= read <= end < a.Length && Rewriting(s, a[..], name, write, read, end, done, rest)
      invariant Names.Component(all, isptr) == (done + Names.Component(rest, isptr).0, Names.Component(rest, isptr).1)
      decreases end - read
    {
      Look(s, a[..], name, write, read, end, done, rest);
      ComponentUnit(all, done, rest, isptr);
      ghost var n, w := Names.UnitLength(rest, isptr), Names.UnitChar(rest, isptr);
      write, read := ComponentTurn(a, isptr, name, write, read, s, end, done, rest);
      done, rest := done + [w], rest[n..];
      Look(s, a[..], name, write, read, end, done, rest);
    }
    Look(s, a[..], name, write, read, end, done, rest);
    ComponentEnd(rest, isptr);
    assert done + "" == done;
    found := true;
    next := Finish(a, s, name, write, read, end, done, rest);
  }

  lemma ComponentEnd(rest: string, isptr: bool)
    ensures rest == "" ==> Names.Component(rest, isptr) == ("", "")
    ensures rest != "" && rest[0] == Names.Separator(isptr) ==> Names.Component(rest, isptr) == ("", rest[1..])
  {
  }

  lemma ComponentUnit(all: string, done: string, rest: string, isptr: bool)
    requires rest != "" && rest[0] != Names.Separator(isptr)
    requires Names.Component(all, isptr) == (done + Names.Component(rest, isptr).0, Names.Component(rest, isptr).1)
    ensures var n := Names.UnitLength(rest, isptr);
            var (k, v) := Names.Component(rest[n..], isptr);
            Names.Component(all, isptr) == ((done + [Names.UnitChar(rest, isptr)]) + k, v)
  {
    var w := [Names.UnitChar(rest, isptr)];
    var k := Names.Component(rest[Names.UnitLength(rest, isptr)..], isptr).0;
    assert done + (w + k) == (done + w) + k;
  }

  /** One turn of the loop of `value`. */
  method ValueTurn(a: array<char>, start: nat, write0: nat, read0: nat,
                   ghost s: seq<char>, ghost end: nat, ghost done: string, ghost rest: string)
    returns (write: nat, read: nat)
    requires Rewriting(s, a[..], start, write0, read0, end, done, rest) && rest != ""
    modifies a
    ensures var (n, w) := Names.ValueUnit(rest);
            read == read0 + n && Rewriting(s, a[..], start, write, read, end, done + [w], rest[n..])
  {
    write, read := write0, read0;
    Peek(s, a[..], start, read, end, rest);
    var c := a[read];
    if c == '\\' && (a[read + 1] == '|' || a[read + 1] == '\\') {
      read := read + 1;
      c := a[read];
    }
    Put(a, s, start, write, read + 1, c, done);
    write := write + 1;
    read := read + 1;
  }

  /** Unescapes and cuts the first alternative of a value; false when none is left. */
  method Value(a: array<char>, val: nat) returns (found: bool, next: nat)
    requires val < a.Length && Ends(a[..], val)
    modifies a
    ensures found <==> old(CStr(a[..], val)) != ""
    ensures var (c, rest) := Names.FirstValue(old(CStr(a[..], val)));
            && next < a.Length
            && CStr(a[..], val) == c
            && CStr(a[..], next) == rest && Ends(a[..], next)
    ensures next + |CStr(a[..], next)| == val + |old(CStr(a[..], val))|
    ensures Frame(old(a[..]), a[..], val, next)
  {
    hide CStr, Ends, Reading, Written, Frame, Rewriting, Names.ValueUnit;
    ghost var s := a[..];
    ghost var all := CStr(s, val);
    ghost var end := StartRewriting(s, val);
    ghost var done, rest := "", all;
    var read, write: nat := val, val;
    Look(s, a[..], val, write, read, end, done, rest);
    FirstValueEnd(all);
    FrameSelf(s, val, val);
    if a[read] == NUL {
      return false, val;
    }
    assert done + Names.FirstValue(all).0 == Names.FirstValue(all).0;
    while a[read] != NUL && a[read] != '|'
      invariant write <= read <= end < a.Length && Rewriting(s, a[..], val, write, read, end, done, rest)
      invariant Names.FirstValue(all) == (done + Names.FirstValue(rest).0, Names.FirstValue(rest).1)
      decreases end - read
    {
      Look(s, a[..], val, write, read, end, done, rest);
      FirstValueUnit(all, done, rest);
      ghost var (n, w) := Names.ValueUnit(rest);
      write, read := ValueTurn(a, val, write, read, s, end, done, rest);
      done, rest := done + [w], rest[n..];
      Look(s, a[..], val, write, read, end, done, rest);
    }
    Look(s, a[..], val, write, read, end, done, rest);
    FirstValueEnd(rest);
    assert done + "" == done;
    found := true;
    next := Finish(a, s, val, write, read, end, done, rest);
  }

  lemma FirstValueEnd(rest: string)
    ensures rest == "" ==> Names.FirstValue(rest) == ("", "")
    ensures rest != "" && rest[0] == '|' ==> Names.FirstValue(rest) == ("", rest[1..])
  {
  }

  lemma FirstValueUnit(all: string, done: string, rest: string)
    requires rest != "" && rest[0] != '|'
    requires Names.FirstValue(all) == (done + Names.FirstValue(rest).0, Names.FirstValue(rest).1)
    ensures var (n, w) := Names.ValueUnit(rest);
            var (k, v) := Names.FirstValue(rest[n..]);
            Names.FirstValue(all) == ((done + [w]) + k, v)
  {
    var (n, w) := Names.ValueUnit(rest);
    var k := Names.FirstValue(rest[n..]).0;
    assert done + ([w] + k) == (done + [w]) + k;
  }

  /** Position of the last specific colon of the key at `key`, or -1. */
  method LastColon(a: array<char>, key: nat, ghost k: string) returns (f: int)
    requires key < a.Length && Reading(a[..], key, key + |k|, k)
    ensures f == (var l := Names.LastSpecific(k, |k|); if l < 0 then -1 else key + l)
  {
    ghost var s := a[..];
    f := -1;
    var r: nat := key;
    while a[r] != NUL
      invariant key <= r <= key + |k| < a.Length
      invariant f == (var l := Names.LastSpecific(k, r - key); if l < 0 then -1 else key + l)
      decreases key + |k| - r
    {
      KeyCell(s, key, k, r - key);
      if a[r] == ':' && a[r + 1] != NUL && a[r + 1] != '*' {
        f := r;
      }
      r := r + 1;
    }
    KeyCell(s, key, k, r - key);
  }

  /** The cell of a key's character and the one after it. */
  lemma KeyCell(s: seq<char>, key: nat, k: string, i: nat)
    requires key < |s| && Reading(s, key, key + |k|, k) && i <= |k|
    ensures i < |k| ==> s[key + i] == k[i] != NUL
    ensures i < |k| ==> s[key + i + 1] == (if i + 1 < |k| then k[i + 1] else NUL)
    ensures i == |k| ==> s[key + i] == NUL
  {
  }

  /** Globalises the key at `key`; false when there is nothing to globalise. */
  method Globalise(a: array<char>, key: nat) returns (done: bool)
    requires key < a.Length && Ends(a[..], key)
    modifies a
    ensures match Names.Globalise(old(CStr(a[..], key)))
            case None => !done && a[..] == old(a[..])
            case Some(g) => done && CStr(a[..], key) == g
    ensures Ends(a[..], key)
    ensures |CStr(a[..], key)| <= |old(CStr(a[..], key))|
    ensures Frame(old(a[..]), a[..], key, key + |old(CStr(a[..], key))|)
  {
    ghost var s := a[..];
    ghost var k := CStr(s, key);
    ghost var end := StartReading(s, key);
    var f := LastColon(a, key, k);
    done := f >= 0;
    if done {
      a[f + 1] := '*';
      a[f + 2] := NUL;
      GlobaliseCells(s, key, k, f - key);
      assert a[..] == s[f + 1 := '*'][f + 2 := NUL];
    }
  }

  lemma GlobaliseCells(s: seq<char>, key: nat, k: string, f: nat)
    requires key < |s| && Reading(s, key, key + |k|, k) && Names.Specific(k, f)
    ensures var t := s[key + f + 1 := '*'][key + f + 2 := NUL];
            && CStr(t, key) == k[..f + 1] + "*" && Ends(t, key)
            && Frame(s, t, key, key + |k|)
  {
    var t := s[key + f + 1 := '*'][key + f + 2 := NUL];
    forall i | key <= i < key + f + 2
      ensures t[i] == (k[..f + 1] + "*")[i - key] != NUL
    {
      if i <= key + f { KeyCell(s, key, k, i - key); }
    }
    CStrIs(t, key, key + f + 2);
    assert t[key + f + 2] == NUL;
  }

  /** What the scope search still has to find when the scopes from `n` on are done. */
  ghost function Remaining(scopes: seq<Json>, n: nat, k: string): Option<Json>
    requires n <= |scopes|
  {
    if Names.Innermost(scopes, n, k).Some? then Names.Innermost(scopes, n, k)
    else match Names.Globalise(k) case None => None case Some(g) => Names.FindFirst(scopes, g)
  }

  /** All the scopes, then the key one step more global. */
  lemma RemainingAll(scopes: seq<Json>, k: string)
    ensures Remaining(scopes, |scopes|, k) == Names.FindFirst(scopes, k)
    ensures Remaining(scopes, 0, k) ==
            match Names.Globalise(k) case None => None case Some(g) => Names.FindFirst(scopes, g)
  {
  }

  /** One scope more is done. */
  lemma RemainingNext(scopes: seq<Json>, n: nat, k: string)
    requires n < |scopes|
    ensures Lookup(scopes[n], k).Some? ==> Remaining(scopes, n + 1, k) == Lookup(scopes[n], k)
    ensures Lookup(scopes[n], k) == None ==> Remaining(scopes, n + 1, k) == Remaining(scopes, n, k)
  {
  }

  /** Search of the first component over all scopes, globalising after each round. */
  method SearchScopes(scopes: seq<Json>, a: array<char>, key: nat) returns (o: Option<Json>)
    requires key < a.Length && Ends(a[..], key)
    modifies a
    ensures o == Names.FindFirst(scopes, old(CStr(a[..], key)))
    ensures Frame(old(a[..]), a[..], key, key + |old(CStr(a[..], key))|)
  {
    hide CStr, Ends, Frame, Remaining, Names.FindFirst, Names.Globalise, Names.Specifics, Lookup;
    ghost var s := a[..];
    ghost var all := CStr(s, key);
    ghost var k := all;
    CStrSlice(s, key);
    FrameSelf(s, key, key + |all|);
    RemainingAll(scopes, k);
    var i: int := |scopes| - 1;
    while true
      invariant -1 <= i < |scopes|
      invariant Ends(a[..], key) && k == CStr(a[..], key) && |k| <= |all|
      invariant Frame(s, a[..], key, key + |all|)
      invariant Remaining(scopes, i + 1, k) == Names.FindFirst(scopes, all)
      decreases |Names.Specifics(k)|, i + 1
    {
      if i < 0 {
        i := |scopes| - 1;
        Names.GlobaliseDropsLast(k);
        RemainingAll(scopes, k);
        ghost var t := a[..];
        var done := Globalise(a, key);
        if !done {
          return None;
        }
        FrameTrans(s, t, a[..], key, key + |k|, key + |all|);
        k := CStr(a[..], key);
        RemainingAll(scopes, k);
      } else {
        RemainingNext(scopes, i, k);
        o := Lookup(scopes[i], CStr(a[..], key));
        if o.Some? {
          return;
        }
        i := i - 1;
      }
    }
  }

  lemma FrameSelf(s: seq<char>, start: nat, read: nat)
    requires start <= read <= |s|
    ensures Frame(s, s, start, read)
  {
  }

  lemma FrameTrans(s: seq<char>, t: seq<char>, u: seq<char>, start: nat, read: nat, limit: nat)
    requires read <= limit && Frame(s, t, start, limit) && Frame(t, u, start, read)
    ensures Frame(s, u, start, limit)
  {
    FrameTail(t, u, start, read, limit);
  }

  /** Search of a sub-component in one object. */
  method SearchObject(obj: Json, a: array<char>, key: nat) returns (o: Option<Json>)
    requires key < a.Length && Ends(a[..], key)
    modifies a
    ensures o == Names.FindFirst([obj], old(CStr(a[..], key)))
    ensures Frame(old(a[..]), a[..], key, key + |old(CStr(a[..], key))|)
  {
    ghost var all := CStr(a[..], key);
    ghost var k := all;
    CStrSlice(a[..], key);
    o := Lookup(obj, CStr(a[..], key));
    while o == None
      invariant Ends(a[..], key) && k == CStr(a[..], key) && |k| <= |all|
      invariant Frame(old(a[..]), a[..], key, key + |all|)
      invariant o == Lookup(obj, k) && Names.FindFirst([obj], all) == Names.FindFirst([obj], k)
      decreases |Names.Specifics(k)|, if o == None then 1 else 0
    {
      Names.GlobaliseDropsLast(k);
      assert Names.Innermost([obj], 1, k) == None;
      ghost var t := a[..];
      var done := Globalise(a, key);
      if !done {
        return None;
      }
      FrameTrans(old(a[..]), t, a[..], key, key + |k|, key + |all|);
      k := CStr(a[..], key);
      o := Lookup(obj, CStr(a[..], key));
    }
    assert Names.Innermost([obj], 1, k) == o;
  }

  /** Follows the components that start at `start`, written before `limit`. */
  method DescendFrom(obj: Json, a: array<char>, start: nat, isptr: bool, ghost limit: nat) returns (o: Json)
    requires start < a.Length && Ends(a[..], start)
    requires start + |CStr(a[..], start)| <= limit <= a.Length
    modifies a
    ensures o == Names.Descend(obj, old(CStr(a[..], start)), isptr)
    ensures a[limit..] == old(a[limit..])
  {
    o := obj;
    var c: nat := start;
    ghost var s := a[..];
    ghost var names := CStr(s, start);
    var found, n: nat := First(a, c, isptr);
    FrameTail(s, a[..], c, n, limit);
    while found
      invariant c <= n < a.Length && Ends(a[..], c) && Ends(a[..], n)
      invariant n + |CStr(a[..], n)| <= limit
      invariant found <==> names != ""
      invariant found ==> (CStr(a[..], c), CStr(a[..], n)) == Names.Component(names, isptr)
      invariant found ==> c + |CStr(a[..], c)| <= n
      invariant Names.Descend(o, names, isptr) == Names.Descend(obj, CStr(s, start), isptr)
      invariant a[limit..] == s[limit..]
      decreases |names|
    {
      Names.ComponentShrinks(names, isptr);
      ghost var before := a[..];
      var r := SearchObject(o, a, c);
      FrameTail(before, a[..], c, c + |CStr(before, c)|, limit);
      if r == None {
        return Null;
      }
      Beyond(before, a[..], c, n);
      o := r.value;
      c := n;
      names := CStr(a[..], c);
      before := a[..];
      found, n := First(a, c, isptr);
      FrameTail(before, a[..], c, n, limit);
    }
  }

  /** The object of the path of components at `n`, written before `limit`. */
  method FindPath(scopes: seq<Json>, a: array<char>, n: nat, isptr: bool, ghost limit: nat) returns (o: Json)
    requires scopes != [] && n < a.Length && Ends(a[..], n)
    requires n + |CStr(a[..], n)| <= limit <= a.Length
    modifies a
    ensures o == Names.FindPath(scopes, old(CStr(a[..], n)), isptr)
    ensures a[limit..] == old(a[limit..])
  {
    ghost var s := a[..];
    ghost var end := StartReading(s, n);
    if a[n] == '.' && a[n + 1] == NUL {
      CStrIs(s, n, n + 1);
      o := scopes[|scopes| - 1];
    } else {
      assert CStr(s, n) != ".";
      var found, next: nat := First(a, n, isptr);
      ghost var t := a[..];
      FrameTail(s, t, n, next, limit);
      if !found {
        return Null;
      }
      var r := SearchScopes(scopes, a, n);
      FrameTail(t, a[..], n, n + |CStr(t, n)|, limit);
      if r == None {
        return Null;
      }
      Beyond(t, a[..], n, next);
      o := DescendFrom(r.value, a, next, isptr, limit);
    }
  }

  /** A change that stops before `next` leaves the C string there. */
  lemma Beyond(s: seq<char>, t: seq<char>, p: nat, next: nat)
    requires p <= |s| && p + |CStr(s, p)| <= next < |s| && Ends(s, next)
    requires Frame(s, t, p, p + |CStr(s, p)|)
    ensures CStr(t, next) == CStr(s, next) && Ends(t, next) && t[next..] == s[next..]
  {
    var q := p + |CStr(s, p)|;
    assert forall i :: q <= i < |s| ==> t[i] == t[q..][i - q] == s[i];
    CStrAgree(s, t, next);
    NulStays(s, t, next);
  }

  /** The object of a name "key['='value['|'value]...]" written at `start`, before `limit`. */
  method FindIn(scopes: seq<Json>, a: array<char>, start: nat, text: Json -> string, ghost limit: nat) returns (o: Json)
    requires scopes != [] && start < a.Length && Ends(a[..], start)
    requires start + |CStr(a[..], start)| <= limit <= a.Length
    modifies a
    ensures o == Names.FindName(scopes, old(CStr(a[..], start)), text)
    ensures a[limit..] == old(a[limit..])
  {
    ghost var s := a[..];
    ghost var name := CStr(s, start);
    ghost var end := StartReading(s, start);
    var isptr := a[start] == '/';
    var n: nat := start + (if isptr then 1 else 0);
    CStrIs(s, n, end);
    assert CStr(s, n) == if isptr then name[1..] else name;
    var v := KeyVal(a, n, isptr);
    ghost var cut := a[..];
    FrameTail(s, cut, n, if v == -1 then end else v, limit);
    Names.KeyShrinks(CStr(s, n), isptr);
    o := FindPath(scopes, a, n, isptr, if v == -1 then limit else v);
    if v != -1 {
      Tail(cut, a[..], v);
      SliceTail(cut, a[..], v, limit);
      var ok := CheckValue(a, v, text(o), limit);
      if !ok {
        o := Null;
      }
    }
  }

  lemma SliceTail(s: seq<char>, t: seq<char>, p: nat, q: nat)
    requires p <= q <= |s| == |t| && s[p..] == t[p..]
    ensures s[q..] == t[q..]
  {
    assert s[q..] == s[p..][q - p..];
    assert t[q..] == t[p..][q - p..];
  }

  lemma Tail(s: seq<char>, t: seq<char>, p: nat)
    requires p < |s| == |t| && s[p..] == t[p..] && Ends(s, p)
    ensures CStr(s, p) == CStr(t, p) && Ends(t, p)
  {
    assert forall i :: p <= i < |s| ==> s[i] == s[p..][i - p] == t[i];
    CStrAgree(s, t, p);
    NulStays(s, t, p);
  }

  /** The value test: is `wanted` among the alternatives written at `val`, before `limit`? */
  method CheckValue(a: array<char>, val: nat, wanted: string, ghost limit: nat) returns (ok: bool)
    requires val < a.Length && Ends(a[..], val)
    requires val + |CStr(a[..], val)| <= limit <= a.Length
    modifies a
    ensures ok == Names.Accepts(old(CStr(a[..], val)), wanted)
    ensures a[limit..] == old(a[limit..])
  {
    ghost var t := a[..];
    ghost var end := StartReading(t, val);
    var negated := a[val] == '!';
    var c: nat := val + (if negated then 1 else 0);
    CStrIs(t, c, end);
    ghost var s := CStr(t, c);
    assert s == if negated then CStr(t, val)[1..] else CStr(t, val);
    ghost var left := s;
    var found, next: nat := Value(a, c);
    FrameTail(t, a[..], c, next, limit);
    while found && CStr(a[..], c) != wanted
      invariant c < a.Length && (found <==> left != "")
      invariant next < a.Length && Ends(a[..], next) && next + |CStr(a[..], next)| <= limit
      invariant (CStr(a[..], c), CStr(a[..], next)) == Names.FirstValue(left)
      invariant Names.AmongValues(left, wanted) == Names.AmongValues(s, wanted)
      invariant a[limit..] == t[limit..]
      decreases |left|
    {
      Names.FirstValueShrinks(left);
      ghost var before := a[..];
      left := CStr(a[..], next);
      c := next;
      found, next := Value(a, c);
      FrameTail(before, a[..], c, next, limit);
    }
    ok := found != negated;
  }

  /** Where the first alternative stops: at its null or at "||". */
  method ScanBars(a: array<char>, n: nat) returns (stop: nat)
    requires n < a.Length && Ends(a[..], n)
    ensures n <= stop <= n + |CStr(a[..], n)| < a.Length
    ensures var (alt, rest) := Names.SplitBars(CStr(a[..], n));
            var next := if a[stop] == NUL then stop else stop + 2;
            && alt == a[n..stop]
            && next <= n + |CStr(a[..], n)| && rest == a[next..n + |CStr(a[..], n)|]
  {
    hide CStr, Ends, Reading, Names.SplitBars;
    ghost var s := a[..];
    ghost var here := CStr(s, n);
    ghost var end := StartReading(s, n);
    ghost var done, rest := "", here;
    stop := n;
    LookAhead(s, stop, end, rest);
    assert s[n..n] == "" && done + Names.SplitBars(here).0 == Names.SplitBars(here).0;
    while a[stop] != NUL && (a[stop] != '|' || a[stop + 1] != '|')
      invariant n <= stop <= end < a.Length && Reading(s, stop, end, rest) && done == s[n..stop]
      invariant stop == end <==> a[stop] == NUL
      invariant Names.SplitBars(here) == (done + Names.SplitBars(rest).0, Names.SplitBars(rest).1)
      decreases end - stop
    {
      LookAhead(s, stop, end, rest);
      BarsStep(rest);
      assert done + ([rest[0]] + Names.SplitBars(rest[1..]).0) == (done + [rest[0]]) + Names.SplitBars(rest[1..]).0;
      done, rest := done + [rest[0]], rest[1..];
      stop := stop + 1;
      LookAhead(s, stop, end, rest);
    }
    LookAhead(s, stop, end, rest);
    BarsStep(rest);
    assert done + "" == done;
  }

  lemma LookAhead(s: seq<char>, p: nat, end: nat, rest: string)
    requires Reading(s, p, end, rest)
    ensures p <= end < |s| && rest == s[p..end] && (rest == "" <==> s[p] == NUL) && (p == end <==> s[p] == NUL)
    ensures rest != "" ==> rest[0] == s[p] && Reading(s, p + 1, end, rest[1..])
    ensures rest != "" ==> s[p + 1] == if |rest| > 1 then rest[1] else NUL
    ensures |rest| > 1 ==> rest[2..] == s[p + 2..end]
  {
    Peek(s, s, 0, p, end, rest);
  }

  lemma BarsStep(rest: string)
    ensures rest == "" ==> Names.SplitBars(rest) == ("", "")
    ensures |rest| > 1 && rest[0] == '|' && rest[1] == '|' ==> Names.SplitBars(rest) == ("", rest[2..])
    ensures rest != "" && !(|rest| > 1 && rest[0] == '|' && rest[1] == '|') ==>
              Names.SplitBars(rest) == ([rest[0]] + Names.SplitBars(rest[1..]).0, Names.SplitBars(rest[1..]).1)
  {
  }

  /** Cuts the first alternative at "||"; returns where the next one starts. */
  method CutBars(a: array<char>, n: nat) returns (next: nat)
    requires n < a.Length && Ends(a[..], n)
    modifies a
    ensures var (alt, rest) := Names.SplitBars(old(CStr(a[..], n)));
            && n + |alt| <= next < a.Length
            && (n + |alt| == next ==> rest == "")
            && CStr(a[..], n) == alt && Ends(a[..], n)
            && CStr(a[..], next) == rest && Ends(a[..], next)
  {
    ghost var s := a[..];
    ghost var end := StartReading(s, n);
    var stop := ScanBars(a, n);
    next := stop;
    if a[stop] != NUL {
      a[stop] := NUL;
      next := stop + 2;
    }
    ghost var t := a[..];
    assert t == s[stop := NUL];
    assert t[n..stop] == s[n..stop] && t[next..end] == s[next..end];
    assert forall i :: n <= i < end ==> s[i] == s[n..end][i - n];
    CStrIs(t, n, stop);
    CStrIs(t, next, end);
    assert t[stop] == NUL && t[end] == NUL;
  }

  /** The first alternative of "name['||'name]..." that denotes something. */
  method FindOr(scopes: seq<Json>, a: array<char>, start: nat, text: Json -> string) returns (o: Json)
    requires scopes != [] && start < a.Length && Ends(a[..], start)
    modifies a
    ensures o == Names.FindOr(scopes, old(CStr(a[..], start)), text)
  {
    o := Null;
    var n: nat := start;
    ghost var name := CStr(a[..], start);
    while a[n] != NUL && o == Null
      invariant n < a.Length && Ends(a[..], n)
      invariant Names.FindOr(scopes, name, text) ==
                if o != Null then o else Names.FindOr(scopes, CStr(a[..], n), text)
      decreases |CStr(a[..], n)|, if o == Null then 1 else 0
    {
      var next := CutBars(a, n);
      ghost var cut := a[..];
      CStrSlice(cut, n);
      ghost var limit := n + |CStr(cut, n)|;
      o := FindIn(scopes, a, n, text, limit);
      SliceTail(cut, a[..], limit, next);
      Tail(cut, a[..], next);
      n := next;
    }
  }
}
