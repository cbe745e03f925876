/**
 Units described in one text (src/units/unit-process.c): patterns matched at
 the start of lines, and what a text made of %begin / %end blocks means.
 */
module Corpus {
  import opened TextLines
  import opened Options

  predicate IsBlank(c: char) {
    c == ' ' || c == '\t'
  }

  /** Is the first text the end of the second? */
  predicate Suffix(s: string, t: string) {
    |s| <= |t| && s == t[|t| - |s|..]
  }

  /** What a text holds before its end `s`. */
  function Before(t: string, s: string): string
    requires |s| <= |t|
  {
    t[..|t| - |s|]
  }

  /** A text without the blanks at its head. */
  function SkipBlanks(t: string): (u: string)
    ensures |u| <= |t| && u == t[|t| - |u|..] && (u != "" ==> !IsBlank(u[0]))
    ensures forall i :: 0 <= i < |t| - |u| ==> IsBlank(t[i])
  {
    if t != "" && IsBlank(t[0]) then SkipBlanks(t[1..]) else t
  }

  /**
   What follows a pattern at the head of a text. In patterns a space stands for
   some blanks, a newline for the end of a line with any blanks before it.
   */
  function Match(pattern: string, t: string): (r: Option<string>)
    ensures r.Some? ==> Suffix(r.value, t)
    decreases |pattern|
  {
    if pattern == "" then Some(t)
    else if pattern[0] == '\n' then
      var u := SkipBlanks(t);
      if u == "" then Match(pattern[1..], u)
      else if u[0] == '\n' then Match(pattern[1..], u[1..])
      else None
    else if pattern[0] == ' ' then
      if t == "" || !IsBlank(t[0]) then None else Match(pattern[1..], SkipBlanks(t))
    else if t == "" || t[0] != pattern[0] then None
    else Match(pattern[1..], t[1..])
  }

  predicate Matches(pattern: string, t: string) {
    Match(pattern, t).Some?
  }

  /** The lines after the first, if there are. */
  function NextLine(t: string): (r: Option<string>)
    ensures r.Some? ==> Suffix(r.value, t) && |r.value| < |t|
  {
    var n := LineLength(t);
    if n < |t| then Some(t[n + 1..]) else None
  }

  /** The text from the first line that begins with the pattern. */
  function Offset(t: string, pattern: string): (r: Option<string>)
    ensures r.Some? ==> Suffix(r.value, t) && Matches(pattern, r.value)
    decreases |t|
  {
    if Matches(pattern, t) then Some(t)
    else match NextLine(t)
      case None => None
      case Some(u) => Offset(u, pattern)
  }

  const BEGIN := "%begin "
  const END := "%end "
  const NAME := "systemd-unit\n"

  /** Does the text begin with that marker, for a systemd unit? */
  predicate Names(marker: string, t: string) {
    Matches(marker, t) && Matches(NAME, Match(marker, t).value)
  }

  /**
   The meaning of a text, line by line: markers alternate, and all of them name
   a systemd unit. `inside` tells that a block is open.
   */
  predicate WellFormed(t: string, inside: bool)
    decreases |t|
  {
    if Matches(BEGIN, t) then !inside && Names(BEGIN, t) && After(t, true)
    else if Matches(END, t) then inside && Names(END, t) && After(t, false)
    else After(t, inside)
  }

  predicate After(t: string, inside: bool)
    decreases |t|, 0
  {
    match NextLine(t)
    case None => !inside
    case Some(u) => WellFormed(u, inside)
  }

  /** The lines of the blocks of a text; `body` is what the open block holds already. */
  function Blocks(t: string, body: Option<string>): seq<string>
    decreases |t|
  {
    var head := if Matches(END, t) && body.Some? then [body.value] else [];
    var open := if Matches(BEGIN, t) then Some("")
                else if Matches(END, t) || body == None then None
                else Some(body.value + t[..LineLength(t)] + "\n");
    head + match NextLine(t)
           case None => []
           case Some(u) => Blocks(u, open)
  }

  // ------------------------------------------------------------- lines and matches

  /** A newline, if any, ends the pattern. */
  predicate LinePattern(p: string) {
    '\n' !in p[..if p == "" then 0 else |p| - 1]
  }

  lemma LinePatternTail(p: string)
    requires LinePattern(p) && p != ""
    ensures LinePattern(p[1..])
    ensures p[0] == '\n' ==> p == "\n"
    ensures |p| > 1 ==> p[1..][|p| - 2] == p[|p| - 1]
  {
    if |p| > 1 {
      assert p[1..][..|p| - 2] == p[..|p| - 1][1..];
      assert p[..|p| - 1][0] == p[0];
    }
  }

  lemma SkipStep(t: string)
    ensures t != "" && IsBlank(t[0]) ==> SkipBlanks(t) == SkipBlanks(t[1..])
    ensures t == "" || !IsBlank(t[0]) ==> SkipBlanks(t) == t
  {
  }

  lemma {:induction false} SkipBlanksLine(a: string, c: string)
    requires '\n' !in a
    ensures SkipBlanks(a + "\n" + c) == SkipBlanks(a) + "\n" + c && '\n' !in SkipBlanks(a)
  {
    hide SkipBlanks;
    var t := a + "\n" + c;
    SkipStep(a);
    SkipStep(t);
    assert t[0] == if a == "" then '\n' else a[0];
    if a != "" && IsBlank(a[0]) {
      assert t[1..] == a[1..] + "\n" + c;
      SkipBlanksLine(a[1..], c);
    }
  }

  lemma MatchStep(p: string, t: string)
    requires p != ""
    ensures p[0] == '\n' ==>
              var u := SkipBlanks(t);
              Match(p, t) == if u == "" then Match(p[1..], u) else if u[0] == '\n' then Match(p[1..], u[1..]) else None
    ensures p[0] == ' ' ==> Match(p, t) == if t == "" || !IsBlank(t[0]) then None else Match(p[1..], SkipBlanks(t))
    ensures p[0] != '\n' && p[0] != ' ' ==> Match(p, t) == if t == "" || t[0] != p[0] then None else Match(p[1..], t[1..])
  {
  }

  lemma MatchNothing(t: string)
    ensures Match("", t) == Some(t)
  {
  }

  /** A line and what follows it. */
  function Full(a: string, c: string): string {
    a + "\n" + c
  }

  /** Both readings of a pattern: on the first line alone, and with what follows it. */
  ghost predicate Local(p: string, a: string, c: string) {
    match Match(p, a)
    case None => Match(p, Full(a, c)) == None
    case Some(r) =>
      if p != "" && p[|p| - 1] == '\n' then r == "" && Match(p, Full(a, c)) == Some(c)
      else '\n' !in r && Match(p, Full(a, c)) == Some(Full(r, c))
  }

  lemma FullParts(a: string, c: string)
    ensures Full(a, c) != "" && Full(a, c)[0] == if a == "" then '\n' else a[0]
    ensures a != "" ==> Full(a, c)[1..] == Full(a[1..], c)
    ensures a == "" ==> Full(a, c)[1..] == c
    ensures '\n' !in a ==> SkipBlanks(Full(a, c)) == Full(SkipBlanks(a), c) && '\n' !in SkipBlanks(a)
  {
    if '\n' !in a { SkipBlanksLine(a, c); }
  }

  lemma NotInTail(a: string)
    requires a != "" && '\n' !in a
    ensures '\n' !in a[1..] && a[0] != '\n'
  {
  }

  /** Whether a pattern matches depends on the first line only. */
  lemma {:induction false} MatchIsLocal(p: string, a: string, c: string)
    requires LinePattern(p) && '\n' !in a
    ensures Local(p, a, c)
    decreases |p|
  {
    hide Match, SkipBlanks, LinePattern, Full;
    FullParts(a, c);
    if p == "" {
      MatchNothing(a);
      MatchNothing(Full(a, c));
    } else {
      LinePatternTail(p);
      MatchStep(p, a);
      MatchStep(p, Full(a, c));
      if p[0] == '\n' {
        LocalEnd(a, c);
      } else if p[0] == ' ' {
        if a != "" && IsBlank(a[0]) { MatchIsLocal(p[1..], SkipBlanks(a), c); }
      } else if a != "" && a[0] == p[0] {
        NotInTail(a);
        MatchIsLocal(p[1..], a[1..], c);
      }
    }
  }

  lemma LocalEnd(a: string, c: string)
    requires '\n' !in a
    ensures Local("\n", a, c)
  {
    hide Match, SkipBlanks, Full;
    var u := SkipBlanks(a);
    FullParts(a, c);
    FullParts(u, c);
    MatchStep("\n", a);
    MatchStep("\n", Full(a, c));
    assert "\n"[1..] == "";
    MatchNothing("");
    MatchNothing(c);
    if u != "" { NotInTail(u); }
  }

  /** A text is its first line, and the rest after a newline. */
  lemma FirstLine(t: string)
    requires NextLine(t).Some?
    ensures var a := t[..LineLength(t)]; '\n' !in a && t == a + "\n" + NextLine(t).value
  {
  }

  lemma NextLineIs(a: string, c: string)
    requires '\n' !in a
    ensures LineLength(a + "\n" + c) == |a| && NextLine(a + "\n" + c) == Some(c)
  {
    LineLengthIs(a, c);
    assert (a + "\n" + c)[|a| + 1..] == c;
  }

  lemma MatchFirst(p: string, t: string)
    requires p != "" && p[0] != '\n' && p[0] != ' ' && Match(p, t).Some?
    ensures t != "" && t[0] == p[0] && Match(p[1..], t[1..]).Some?
  {
  }

  /** A line is not both markers. */
  lemma NotBoth(t: string)
    ensures !(Matches(BEGIN, t) && Matches(END, t))
  {
    if Matches(BEGIN, t) {
      MatchFirst(BEGIN, t);
      MatchFirst(BEGIN[1..], t[1..]);
      assert t[1..][0] == 'b';
    }
  }

  // ------------------------------------------------------------------- first markers

  /** Does the first text start earlier than the second, both ending alike? */
  predicate Earlier(a: Option<string>, b: Option<string>) {
    a.Some? && (b.Some? ==> |a.value| > |b.value|)
  }

  lemma OffsetStep(t: string, pattern: string)
    ensures Offset(t, pattern) ==
            if Matches(pattern, t) then Some(t)
            else if NextLine(t) == None then None
            else Offset(NextLine(t).value, pattern)
  {
  }

  lemma FormStep(t: string, inside: bool)
    ensures WellFormed(t, inside) ==
            if Matches(BEGIN, t) then !inside && Names(BEGIN, t) && After(t, true)
            else if Matches(END, t) then inside && Names(END, t) && After(t, false)
            else After(t, inside)
    ensures After(t, inside) == if NextLine(t) == None then !inside else WellFormed(NextLine(t).value, inside)
  {
  }

  lemma BlocksStep(t: string, body: Option<string>)
    ensures !Matches(BEGIN, t) && !Matches(END, t) && NextLine(t) == None ==> Blocks(t, body) == []
    ensures !Matches(BEGIN, t) && !Matches(END, t) && NextLine(t).Some? ==>
              Blocks(t, body) == Blocks(NextLine(t).value, if body == None then None else Some(body.value + t[..LineLength(t)] + "\n"))
    ensures Matches(BEGIN, t) && !Matches(END, t) && NextLine(t).Some? ==> Blocks(t, body) == Blocks(NextLine(t).value, Some(""))
    ensures !Matches(BEGIN, t) && Matches(END, t) && body.Some? ==>
              Blocks(t, body) == [body.value] + if NextLine(t) == None then [] else Blocks(NextLine(t).value, None)
  {
    hide Match, LineLength;
  }

  lemma {:induction false} Outside(t: string)
    ensures var b, e := Offset(t, BEGIN), Offset(t, END);
            && (b == None && e == None ==> WellFormed(t, false) && Blocks(t, None) == [])
            && (Earlier(e, b) ==> !WellFormed(t, false))
            && (Earlier(b, e) ==> WellFormed(t, false) == WellFormed(b.value, false) && Blocks(t, None) == Blocks(b.value, None))
            && (Earlier(b, e) ==> Offset(b.value, END) == e)
            && (b.Some? || e.Some? ==> Earlier(b, e) || Earlier(e, b))
    decreases |t|
  {
    hide Match, LineLength, Matches, Offset, WellFormed, After, Blocks, NextLine;
    NotBoth(t);
    OffsetStep(t, BEGIN);
    OffsetStep(t, END);
    FormStep(t, false);
    BlocksStep(t, None);
    var next := NextLine(t);
    if !Matches(BEGIN, t) && !Matches(END, t) && next.Some? {
      Outside(next.value);
    }
  }

  lemma BeforeLine(t: string, u: string, e: string, line: string)
    requires t == line + u && |e| <= |u|
    ensures Before(t, e) == line + Before(u, e)
  {
  }

  lemma {:induction false} Inside(t: string, body: string)
    ensures var b, e := Offset(t, BEGIN), Offset(t, END);
            && (e == None || Earlier(b, e) ==> !WellFormed(t, true))
            && (Earlier(e, b) ==> WellFormed(t, true) == WellFormed(e.value, true))
            && (Earlier(e, b) ==> Blocks(t, Some(body)) == Blocks(e.value, Some(body + Before(t, e.value))))
            && (e.Some? ==> Earlier(b, e) || Earlier(e, b))
    decreases |t|
  {
    hide Match, LineLength, Matches, Offset, WellFormed, After, Blocks, NextLine;
    NotBoth(t);
    OffsetStep(t, BEGIN);
    OffsetStep(t, END);
    FormStep(t, true);
    BlocksStep(t, Some(body));
    var next := NextLine(t);
    if Matches(END, t) {
      assert Before(t, t) == "" && body + "" == body;
    } else if !Matches(BEGIN, t) && next.Some? {
      var u := next.value;
      var line := t[..LineLength(t)] + "\n";
      FirstLine(t);
      assert body + t[..LineLength(t)] + "\n" == body + line;
      Inside(u, body + line);
      var e := Offset(t, END);
      if e.Some? {
        BeforeLine(t, u, e.value, line);
        assert body + line + Before(u, e.value) == body + (line + Before(u, e.value));
      }
    }
  }

  // ----------------------------------------------------------------------- one block

  lemma PatternsAreLines()
    ensures LinePattern(BEGIN) && LinePattern(END) && LinePattern(NAME)
  {
  }

  lemma EmptyText()
    ensures WellFormed("", false) && Blocks("", None) == [] && NextLine("") == None
  {
  }

  /** A text is a line without newline, or a line and what follows it. */
  lemma Decompose(t: string) returns (a: string)
    ensures '\n' !in a
    ensures NextLine(t) == None ==> a == t
    ensures NextLine(t).Some? ==> t == Full(a, NextLine(t).value)
  {
    a := t[..LineLength(t)];
    if NextLine(t).Some? { FirstLine(t); }
  }

  /** After a named marker comes the next line, or nothing. */
  lemma AfterMarker(marker: string, t: string)
    requires (marker == BEGIN || marker == END) && Names(marker, t)
    ensures var rest := Match(NAME, Match(marker, t).value).value;
            if NextLine(t) == None then rest == "" else rest == NextLine(t).value
  {
    hide Match, NextLine, Full, LinePattern;
    PatternsAreLines();
    var a := Decompose(t);
    var c := if NextLine(t) == None then "" else NextLine(t).value;
    MatchIsLocal(marker, a, c);
    MatchIsLocal(NAME, Match(marker, a).value, c);
  }

  /** What follows the end of a block. */
  lemma BlockEnd(e: string, body: string)
    requires Matches(END, e)
    ensures !Names(END, e) ==> !WellFormed(e, true)
    ensures Names(END, e) ==>
              var rest := Match(NAME, Match(END, e).value).value;
              WellFormed(e, true) == WellFormed(rest, false) && Blocks(e, Some(body)) == [body] + Blocks(rest, None)
  {
    hide Match, NextLine, WellFormed, After, Blocks;
    NotBoth(e);
    FormStep(e, true);
    FormStep(e, false);
    BlocksStep(e, Some(body));
    EmptyText();
    if Names(END, e) { AfterMarker(END, e); }
  }

  lemma FullLine(r: string, u: string)
    requires '\n' !in r
    ensures NextLine(Full(r, u)) == Some(u) && |u| < |Full(r, u)|
  {
    NextLineIs(r, u);
  }

  lemma FullBefore(r: string, u: string, e: string)
    requires |e| <= |u|
    ensures |e| <= |Full(r, u)| && Before(Full(r, u), e) == Full(r, Before(u, e))
  {
    assert (r + "\n" + u)[..|r| + 1 + |u| - |e|] == r + "\n" + u[..|u| - |e|];
  }

  /** The text of the beginning of a block, after its marker. */
  lemma BlockStart(b: string)
    requires Matches(BEGIN, b) && NextLine(b).Some?
    ensures var beg, u := Match(BEGIN, b).value, NextLine(b).value;
            && |u| < |beg| && NextLine(beg) == Some(u)
            && (Matches(BEGIN, beg) ==> !Names(BEGIN, b))
  {
    hide Match, LinePattern, NextLine, Full, Suffix;
    PatternsAreLines();
    var u := NextLine(b).value;
    var a := Decompose(b);
    MatchIsLocal(BEGIN, a, u);
    FullLine(Match(BEGIN, a).value, u);
    if Matches(BEGIN, Match(BEGIN, b).value) { MarkerIsNoName(Match(BEGIN, b).value); }
  }

  /** Cutting the text after the first line of the block does not change what it names. */
  lemma BlockName(b: string, e: string)
    requires Matches(BEGIN, b) && NextLine(b).Some? && |e| <= |NextLine(b).value|
    ensures var beg, u := Match(BEGIN, b).value, NextLine(b).value;
            && |e| <= |beg|
            && (Matches(NAME, Before(beg, e)) <==> Names(BEGIN, b))
            && (Names(BEGIN, b) ==> Match(NAME, Before(beg, e)) == Some(Before(u, e)))
  {
    hide Match, LinePattern, NextLine, Full, Suffix, Before;
    PatternsAreLines();
    var u := NextLine(b).value;
    var a := Decompose(b);
    MatchIsLocal(BEGIN, a, u);
    var r := Match(BEGIN, a).value;
    FullBefore(r, u, e);
    MatchIsLocal(NAME, r, u);
    MatchIsLocal(NAME, r, Before(u, e));
  }

  lemma MarkerIsNoName(t: string)
    requires Matches(BEGIN, t)
    ensures !Matches(NAME, t)
  {
    MatchFirst(BEGIN, t);
    MatchStep(NAME, t);
  }

  /** The next end marker lies after the line of a begin marker. */
  lemma BlockHasEnd(b: string)
    requires Matches(BEGIN, b) && Offset(b, END).Some?
    ensures NextLine(b).Some? && Offset(NextLine(b).value, END) == Offset(b, END)
    ensures |Offset(b, END).value| <= |NextLine(b).value| < |Match(BEGIN, b).value|
  {
    hide Match, NextLine;
    NotBoth(b);
    BlockStart(b);
  }

  /** The meaning of a text is one block, then that of the rest. */
  ghost predicate Turned(t: string, rest: string, body: string) {
    WellFormed(t, false) == WellFormed(rest, false) && Blocks(t, None) == [body] + Blocks(rest, None)
  }

  /** One turn of the splitter, from a begin marker with an end marker after it. */
  lemma BlockTurn(b: string, e: string)
    requires Matches(BEGIN, b) && Offset(b, END) == Some(e)
    ensures var again := Offset(Match(BEGIN, b).value, BEGIN);
            && NextLine(b).Some? && |e| <= |NextLine(b).value|
            && (Earlier(again, Some(e)) || !Names(BEGIN, b) || !Names(END, e) ==> !WellFormed(b, false))
            && (!Earlier(again, Some(e)) && Names(BEGIN, b) && Names(END, e) ==>
                  Turned(b, Match(NAME, Match(END, e).value).value, Before(NextLine(b).value, e)))
  {
    hide Match, Offset, WellFormed, After, Blocks, NextLine, Suffix, Before;
    NotBoth(b);
    BlockHasEnd(b);
    FormStep(b, false);
    FormStep(b, true);
    BlocksStep(b, None);
    BlockStart(b);
    var u, beg := NextLine(b).value, Match(BEGIN, b).value;
    OffsetStep(beg, BEGIN);
    Inside(u, "");
    assert "" + Before(u, e) == Before(u, e);
    BlockEnd(e, Before(u, e));
  }

  // -------------------------------------------------------------- texts put together

  predicate WholeLines(s: string) {
    s == "" || s[|s| - 1] == '\n'
  }

  /** Lines without marker. */
  predicate MarkerFree(s: string) {
    WholeLines(s) && Offset(s, BEGIN) == None && Offset(s, END) == None
  }

  /** Lines without marker change nothing but the open block. */
  lemma {:induction false} SkipFree(s: string, t: string, body: Option<string>)
    requires MarkerFree(s)
    ensures WellFormed(s + t, body.Some?) == WellFormed(t, body.Some?)
    ensures Blocks(s + t, body) == Blocks(t, if body == None then None else Some(body.value + s))
    decreases |s|
  {
    hide Match, Offset, WellFormed, After, Blocks, NextLine, Suffix, Full;
    if s == "" {
      assert s + t == t;
      assert body.Some? ==> body.value + s == body.value;
    } else {
      var a, u := FreeLine(s);
      FullMore(a, u, t);
      var st := s + t;
      SameLine(a, u, u + t);
      FullLine(a, u + t);
      FullPrefix(a, u + t);
      FormStep(st, body.Some?);
      BlocksStep(st, body);
      var more := if body == None then None else Some(body.value + a + "\n");
      SkipFree(u, t, more);
      if body.Some? { FullSplit(body.value, a, u); }
    }
  }

  lemma FullSplit(b: string, a: string, u: string)
    ensures b + a + "\n" + u == b + Full(a, u)
  {
  }

  lemma FullMore(a: string, u: string, t: string)
    ensures Full(a, u) + t == Full(a, u + t)
  {
    assert a + "\n" + u + t == a + "\n" + (u + t);
  }

  lemma FullPrefix(a: string, u: string)
    requires '\n' !in a
    ensures LineLength(Full(a, u)) == |a| && Full(a, u)[..|a|] == a
  {
    NextLineIs(a, u);
  }

  lemma FreeLine(s: string) returns (a: string, u: string)
    requires s != "" && MarkerFree(s)
    ensures '\n' !in a && s == Full(a, u) && |u| < |s| && MarkerFree(u)
    ensures !Matches(BEGIN, s) && !Matches(END, s)
  {
    OffsetStep(s, BEGIN);
    OffsetStep(s, END);
    assert LineLength(s) < |s| by { NewlineInside(s); }
    a := Decompose(s);
    u := NextLine(s).value;
  }

  lemma {:induction false} NewlineInside(s: string)
    requires s != "" && s[|s| - 1] == '\n'
    ensures LineLength(s) < |s|
  {
    if s[0] != '\n' { NewlineInside(s[1..]); }
  }

  /** The markers of a line do not depend on what follows it. */
  lemma SameLine(a: string, u: string, v: string)
    requires '\n' !in a
    ensures Matches(BEGIN, Full(a, u)) == Matches(BEGIN, Full(a, v)) && Matches(END, Full(a, u)) == Matches(END, Full(a, v))
  {
    hide Match, Full;
    PatternsAreLines();
    MatchIsLocal(BEGIN, a, u);
    MatchIsLocal(BEGIN, a, v);
    MatchIsLocal(END, a, u);
    MatchIsLocal(END, a, v);
  }

  // --------------------------------------------------------------------- descriptors

  datatype Scope = AnyScope | User | System

  datatype Kind = AnyKind | Socket | Service

  datatype Unit = Unit(scope: Scope, kind: Kind, name: Option<string>, wantedBy: Option<string>)

  const USER := "%systemd-unit user\n"
  const SYSTEM := "%systemd-unit system\n"
  const SOCKET := "%systemd-unit socket "
  const SERVICE := "%systemd-unit service "
  const WANTED := "%systemd-unit wanted-by "

  /** Length of the word at the head of a text. */
  function WordLength(t: string): (n: nat)
    ensures n <= |t| && (forall i :: 0 <= i < n ==> !IsBlank(t[i]) && t[i] != '\n')
    ensures n < |t| ==> IsBlank(t[n]) || t[n] == '\n'
  {
    if t == "" || IsBlank(t[0]) || t[0] == '\n' then 0 else 1 + WordLength(t[1..])
  }

  /** The word that follows the first line with that pattern. */
  function WordAfter(t: string, pattern: string): Option<string> {
    var u := Offset(t, pattern);
    if u == None then None
    else
      var v := Match(pattern, u.value).value;
      Some(v[..WordLength(v)])
  }

  /** What the lines of a block say of its unit; contradictory lines say nothing. */
  function Described(t: string): Unit {
    var user, system := Offset(t, USER).Some?, Offset(t, SYSTEM).Some?;
    var socket, service := WordAfter(t, SOCKET), WordAfter(t, SERVICE);
    Unit(if user && !system then User else if system && !user then System else AnyScope,
         if socket.Some? && service == None then Socket else if service.Some? && socket == None then Service else AnyKind,
         if socket.Some? && service == None then socket else if service.Some? && socket == None then service else None,
         WordAfter(t, WANTED))
  }

  // ------------------------------------------------------------------------- packing

  /** Does a character of a line count? Blanks do not, nor the backslash that continues the line. */
  predicate Counts(line: string, ended: bool, i: nat)
    requires i < |line|
  {
    !IsBlank(line[i]) && !(ended && i == |line| - 1 && line[i] == '\\')
  }

  /** The first character from a position on that counts, or the length. */
  function FirstCounting(line: string, ended: bool, i: nat): (k: nat)
    requires i <= |line|
    ensures i <= k <= |line|
    decreases |line| - i
  {
    if i == |line| || Counts(line, ended, i) then i else FirstCounting(line, ended, i + 1)
  }

  predicate Continues(line: string, ended: bool) {
    ended && line != "" && line[|line| - 1] == '\\'
  }

  /** A directive is dropped, but the one that asks for an empty line. */
  function KeptText(kept: string, purge: char): (r: string)
    ensures |r| <= |kept|
  {
    if kept != "" && kept[0] == purge then (if |kept| >= 4 && kept[1..4] == "nl\n" then "\n" else "")
    else kept
  }

  /** What is left of a line: `cont` tells that it continues the one before. */
  function PackLine(line: string, ended: bool, cont: bool, purge: char): (r: string)
    ensures |r| <= |line| + if ended then 1 else 0
  {
    var k := FirstCounting(line, ended, 0);
    if k < |line| || (cont && !Continues(line, ended)) then
      var kept := (if !cont && k < |line| then line[k..] else line) + (if ended then "\n" else "");
      KeptText(kept, purge)
    else ""
  }

  /** A text without its empty lines and its directives. */
  function PackText(t: string, cont: bool, purge: char): (r: string)
    ensures |r| <= |t|
    decreases |t|
  {
    if t == "" then ""
    else
      var n := LineLength(t);
      var ended := n < |t|;
      PackLine(t[..n], ended, cont, purge) +
      (if ended then PackText(t[n + 1..], Continues(t[..n], ended), purge) else "")
  }
}
