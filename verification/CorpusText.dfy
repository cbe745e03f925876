/** Texts of units written out, and what reading them gives back. */
module CorpusText {
  import opened Corpus
  import opened Options

  /** No newline, and every space is followed by something else than a blank. */
  ghost predicate Literal(q: string, t: string) {
    forall i :: 0 <= i < |q| ==> q[i] != '\n' && (q[i] == ' ' ==> i + 1 < |q + t| && !IsBlank((q + t)[i + 1]))
  }

  /** A literal matches itself. */
  lemma {:induction false} MatchSame(q: string, p: string, t: string)
    requires Literal(q, t)
    ensures Match(q + p, q + t) == Match(p, t)
    decreases |q|
  {
    if q == "" {
      assert q + p == p && q + t == t;
    } else {
      var r := q[1..];
      assert (q + p)[1..] == r + p && (q + t)[1..] == r + t;
      assert (q + p)[0] == q[0] && (q + t)[0] == q[0];
      forall i | 0 <= i < |r|
        ensures r[i] != '\n' && (r[i] == ' ' ==> i + 1 < |r + t| && !IsBlank((r + t)[i + 1]))
      {
        assert r[i] == q[i + 1];
        assert i + 1 < |r + t| ==> (r + t)[i + 1] == (q + t)[i + 2];
      }
      MatchSame(r, p, t);
      MatchStep(q + p, q + t);
      if q[0] == ' ' {
        assert (q + t)[1] == (r + t)[0];
        OneBlank(q + t);
      }
    }
  }

  lemma OneBlank(t: string)
    requires |t| > 1 && t[0] == ' ' && !IsBlank(t[1])
    ensures SkipBlanks(t) == t[1..]
  {
    assert SkipBlanks(t[1..]) == t[1..];
  }

  const BEGIN_LINE := "%begin systemd-unit\n"
  const END_LINE := "%end systemd-unit\n"

  lemma NamedEnd(t: string)
    ensures Match(NAME, "systemd-unit\n" + t) == Some(t)
  {
    var q := "systemd-unit";
    assert NAME == q + "\n" && "systemd-unit\n" + t == q + ("\n" + t);
    MatchSame(q, "\n", "\n" + t);
    MatchStep("\n", "\n" + t);
    assert "\n"[1..] == "" && ("\n" + t)[1..] == t;
    MatchNothing(t);
    assert SkipBlanks("\n" + t) == "\n" + t;
  }

  lemma MarkerLine(marker: string, t: string)
    requires marker == BEGIN || marker == END
    ensures var line := marker + "systemd-unit\n" + t;
            && Match(marker, line) == Some("systemd-unit\n" + t) && Names(marker, line)
            && NextLine(line) == Some(t)
  {
    hide Match;
    var name := "systemd-unit\n" + t;
    var line := marker + "systemd-unit\n" + t;
    assert line == marker + name && marker + "" == marker;
    assert name[0] == 's';
    assert forall i :: 0 <= i < |marker| && marker[i] == ' ' ==> i == |marker| - 1 && (marker + name)[i + 1] == 's';
    MatchSame(marker, "", name);
    MatchNothing(name);
    NamedEnd(t);
    var a := marker + "systemd-unit";
    assert line == a + "\n" + t;
    NextLineIs(a, t);
  }

  /** A block between two texts. */
  function BlockText(gap: string, body: string): string {
    gap + BEGIN_LINE + body + END_LINE
  }

  /** Reading one block that was written. */
  lemma BlockRead(gap: string, body: string, t: string)
    requires MarkerFree(gap) && MarkerFree(body)
    ensures WellFormed(BlockText(gap, body) + t, false) == WellFormed(t, false)
    ensures Blocks(BlockText(gap, body) + t, None) == [body] + Blocks(t, None)
  {
    hide Match, WellFormed, After, Blocks, MarkerFree, NextLine, BlockText, Names;
    var e := END + "systemd-unit\n" + t;
    var b := BEGIN + "systemd-unit\n" + (body + e);
    BlockTextIs(gap, body, t);
    SkipFree(gap, b, None);
    BeginRead(body + e);
    SkipFree(body, e, Some(""));
    assert "" + body == body;
    EndRead(body, t);
  }

  lemma BlockTextIs(gap: string, body: string, t: string)
    ensures BlockText(gap, body) + t == gap + (BEGIN + "systemd-unit\n" + (body + (END + "systemd-unit\n" + t)))
  {
  }

  lemma BeginRead(u: string)
    ensures var b := BEGIN + "systemd-unit\n" + u;
            WellFormed(b, false) == WellFormed(u, true) && Blocks(b, None) == Blocks(u, Some(""))
  {
    hide Match, WellFormed, After, Blocks, NextLine;
    var b := BEGIN + "systemd-unit\n" + u;
    MarkerLine(BEGIN, u);
    NotBoth(b);
    FormStep(b, false);
    FormStep(b, true);
    BlocksStep(b, None);
  }

  lemma EndRead(body: string, t: string)
    ensures var e := END + "systemd-unit\n" + t;
            WellFormed(e, true) == WellFormed(t, false) && Blocks(e, Some(body)) == [body] + Blocks(t, None)
  {
    hide Match, WellFormed, After, Blocks, NextLine;
    var e := END + "systemd-unit\n" + t;
    MarkerLine(END, t);
    BlockEnd(e, body);
    AfterMarker(END, e);
  }

  /** Blocks one after the other, each after a text of its own, and a last text. */
  function Assembled(gaps: seq<string>, bodies: seq<string>, last: string): string
    requires |gaps| == |bodies|
  {
    if gaps == [] then last else BlockText(gaps[0], bodies[0]) + Assembled(gaps[1..], bodies[1..], last)
  }

  /** The blocks of a text put together are read back, in order. */
  lemma {:induction false} AssembledRead(gaps: seq<string>, bodies: seq<string>, last: string)
    requires |gaps| == |bodies| && MarkerFree(last)
    requires forall i :: 0 <= i < |gaps| ==> MarkerFree(gaps[i]) && MarkerFree(bodies[i])
    ensures WellFormed(Assembled(gaps, bodies, last), false)
    ensures Blocks(Assembled(gaps, bodies, last), None) == bodies
    decreases |gaps|
  {
    hide WellFormed, Blocks, MarkerFree, BlockText;
    if gaps == [] {
      SkipFree(last, "", None);
      assert last + "" == last;
      EmptyText();
    } else {
      AssembledRead(gaps[1..], bodies[1..], last);
      BlockRead(gaps[0], bodies[0], Assembled(gaps[1..], bodies[1..], last));
      assert bodies == [bodies[0]] + bodies[1..];
    }
  }

  // --------------------------------------------------------------------- directives

  /** The lines of a block: directives, and lines that are none. */
  datatype Line =
    | ForUser
    | ForSystem
    | IsSocket(name: string)
    | IsService(name: string)
    | IsWanted(name: string)
    | Other(text: string)

  const UNIT := "%systemd-unit "

  predicate IsWord(s: string) {
    s != "" && forall i :: 0 <= i < |s| ==> !IsBlank(s[i]) && s[i] != '\n'
  }

  predicate Writable(l: Line) {
    match l
    case ForUser => true
    case ForSystem => true
    case IsSocket(n) => IsWord(n)
    case IsService(n) => IsWord(n)
    case IsWanted(n) => IsWord(n)
    case Other(text) => '\n' !in text && !Matches(UNIT, text)
  }

  /** What a directive says after the common prefix. */
  function Said(l: Line): string {
    match l
    case ForUser => "user"
    case ForSystem => "system"
    case IsSocket(n) => "socket " + n
    case IsService(n) => "service " + n
    case IsWanted(n) => "wanted-by " + n
    case Other(text) => text
  }

  function LineText(l: Line): string {
    (if l.Other? then "" else UNIT) + Said(l) + "\n"
  }

  function Body(ls: seq<Line>): string {
    if ls == [] then "" else LineText(ls[0]) + Body(ls[1..])
  }

  /** The patterns, after the common prefix. */
  predicate IsKey(key: string) {
    key in {"user\n", "system\n", "socket ", "service ", "wanted-by "}
  }

  /** Is the line the one the pattern looks for? */
  predicate Answers(l: Line, key: string) {
    match l
    case ForUser => key == "user\n"
    case ForSystem => key == "system\n"
    case IsSocket(_) => key == "socket "
    case IsService(_) => key == "service "
    case IsWanted(_) => key == "wanted-by "
    case Other(_) => false
  }

  lemma Mismatch(key: string, t: string)
    requires |key| > 1 && |t| > 1 && '\n' !in key[..2] && ' ' !in key[..2] && key[..2] != t[..2]
    ensures Match(key, t) == None
  {
    assert key[..2] == [key[0], key[1]] && t[..2] == [t[0], t[1]];
    MatchStep(key, t);
    if key[0] == t[0] {
      MatchStep(key[1..], t[1..]);
    }
  }

  lemma WordLine(key: string, name: string, t: string)
    requires key == "socket " || key == "service " || key == "wanted-by "
    requires IsWord(name)
    ensures Match(key, key + name + "\n" + t) == Some(name + "\n" + t)
  {
    var u := name + "\n" + t;
    assert key + name + "\n" + t == key + u && key + "" == key;
    assert u[0] == name[0];
    assert (key + u)[|key|] == u[0];
    assert forall i :: 0 <= i < |key| && key[i] == ' ' ==> i == |key| - 1;
    MatchSame(key, "", u);
    MatchNothing(u);
  }

  lemma PlainLine(word: string, t: string)
    requires word == "user" || word == "system"
    ensures Match(word + "\n", word + "\n" + t) == Some(t)
  {
    assert word + "\n" + t == word + ("\n" + t);
    MatchSame(word, "\n", "\n" + t);
    MatchStep("\n", "\n" + t);
    assert "\n"[1..] == "" && ("\n" + t)[1..] == t;
    MatchNothing(t);
    assert SkipBlanks("\n" + t) == "\n" + t;
  }

  function NameOf(l: Line): string {
    match l
    case IsSocket(n) => n
    case IsService(n) => n
    case IsWanted(n) => n
    case _ => ""
  }

  /** After the common prefix: the pattern matches what answers it, and nothing else. */
  lemma SaidAnswers(l: Line, key: string, t: string)
    requires Writable(l) && IsKey(key) && !l.Other?
    ensures Matches(key, Said(l) + "\n" + t) <==> Answers(l, key)
    ensures Answers(l, key) && !l.ForUser? && !l.ForSystem? ==> Match(key, Said(l) + "\n" + t) == Some(NameOf(l) + "\n" + t)
  {
    hide Match;
    var u := Said(l) + "\n" + t;
    assert |u| > 1 && u[..2] == Said(l)[..2];
    assert "user" + "\n" == "user\n" && "system" + "\n" == "system\n";
    if Answers(l, key) {
      match l {
        case ForUser => PlainLine("user", t);
        case ForSystem => PlainLine("system", t);
        case IsSocket(n) => WordLine(key, n, t);
        case IsService(n) => WordLine(key, n, t);
        case IsWanted(n) => WordLine(key, n, t);
      }
    } else {
      OtherWord(l, key);
      Mismatch(key, u);
    }
  }

  lemma OtherWord(l: Line, key: string)
    requires Writable(l) && IsKey(key) && !l.Other? && !Answers(l, key)
    ensures |Said(l)| > 1 && key[..2] != Said(l)[..2] && '\n' !in key[..2] && ' ' !in key[..2]
  {
    match l {
      case ForUser => assert Said(l)[..2] == "us";
      case ForSystem => assert Said(l)[..2] == "sy";
      case IsSocket(_) => assert Said(l)[..2] == "so";
      case IsService(_) => assert Said(l)[..2] == "se";
      case IsWanted(_) => assert Said(l)[..2] == "wa";
    }
    KeyStart(key);
  }

  lemma KeyStart(key: string)
    requires IsKey(key)
    ensures key[..2] == if key == "user\n" then "us" else if key == "system\n" then "sy"
                        else if key == "socket " then "so" else if key == "service " then "se" else "wa"
  {
  }

  lemma {:induction false} MatchHead(q: string, p: string, t: string)
    requires Matches(q + p, t)
    ensures Matches(q, t)
    decreases |q|
  {
    hide Match, SkipBlanks;
    if q == "" {
      MatchNothing(t);
    } else {
      assert (q + p)[1..] == q[1..] + p && (q + p)[0] == q[0];
      MatchStep(q + p, t);
      MatchStep(q, t);
      if q[0] == '\n' {
        var u := SkipBlanks(t);
        MatchHead(q[1..], p, if u == "" then u else u[1..]);
      } else if q[0] == ' ' {
        MatchHead(q[1..], p, SkipBlanks(t));
      } else {
        MatchHead(q[1..], p, t[1..]);
      }
    }
  }

  /** A line at the head of a text. */
  lemma LineAnswers(l: Line, key: string, t: string)
    requires Writable(l) && IsKey(key)
    ensures Matches(UNIT + key, LineText(l) + t) <==> Answers(l, key)
    ensures Answers(l, key) && !l.ForUser? && !l.ForSystem? ==> Match(UNIT + key, LineText(l) + t) == Some(NameOf(l) + "\n" + t)
    ensures NextLine(LineText(l) + t) == Some(t)
  {
    hide Match, NextLine;
    LineEnds(l, t);
    if l.Other? {
      if Matches(UNIT + key, LineText(l) + t) {
        MatchHead(UNIT, key, LineText(l) + t);
      }
      MatchIsLocal(UNIT, l.text, t);
      assert LineText(l) + t == Full(l.text, t);
    } else {
      var u := Said(l) + "\n" + t;
      assert LineText(l) + t == UNIT + u;
      SaidStart(l);
      assert u[0] == Said(l)[0];
      assert (UNIT + u)[|UNIT|] == u[0];
      assert forall i :: 0 <= i < |UNIT| && UNIT[i] == ' ' ==> i == |UNIT| - 1;
      MatchSame(UNIT, key, u);
      SaidAnswers(l, key, t);
    }
  }

  lemma SaidStart(l: Line)
    requires Writable(l) && !l.Other?
    ensures Said(l) != "" && !IsBlank(Said(l)[0]) && '\n' !in Said(l)
  {
  }

  lemma LineEnds(l: Line, t: string)
    requires Writable(l)
    ensures NextLine(LineText(l) + t) == Some(t)
  {
    var a := (if l.Other? then "" else UNIT) + Said(l);
    if !l.Other? { SaidStart(l); }
    assert '\n' !in a;
    assert LineText(l) + t == a + "\n" + t;
    NextLineIs(a, t);
  }

  /** The name in the first line that answers a pattern. */
  function FirstName(ls: seq<Line>, key: string): Option<string> {
    if ls == [] then None
    else if Answers(ls[0], key) then Some(NameOf(ls[0]))
    else FirstName(ls[1..], key)
  }

  predicate Says(ls: seq<Line>, key: string) {
    exists l :: l in ls && Answers(l, key)
  }

  lemma WordEnds(name: string, t: string)
    requires IsWord(name)
    ensures (name + "\n" + t)[..WordLength(name + "\n" + t)] == name
  {
    var u := name + "\n" + t;
    assert forall i :: 0 <= i < |name| ==> u[i] == name[i];
    assert u[|name|] == '\n';
    assert WordLength(u) == |name|;
    assert u[..|name|] == name;
  }

  lemma {:induction false} FirstAnswer(ls: seq<Line>, key: string)
    requires IsKey(key) && forall l :: l in ls ==> Writable(l)
    ensures Offset(Body(ls), UNIT + key).Some? <==> Says(ls, key)
    ensures key != "user\n" && key != "system\n" ==> WordAfter(Body(ls), UNIT + key) == FirstName(ls, key)
    decreases |ls|
  {
    hide Match, Offset, NextLine, LineText, IsKey, Answers, WordLength, Writable;
    var p := UNIT + key;
    OffsetStep(Body(ls), p);
    if ls == [] {
      EmptyText();
      NoMatchInNothing(key);
    } else {
      var l, more := ls[0], ls[1..];
      assert l in ls;
      LineAnswers(l, key, Body(more));
      FirstAnswer(more, key);
      assert ls == [l] + more;
      if Answers(l, key) {
        NamedAnswer(l, key, Body(more));
      }
    }
  }

  lemma NamedAnswer(l: Line, key: string, t: string)
    requires Writable(l) && Answers(l, key)
    ensures key != "user\n" && key != "system\n" ==> !l.ForUser? && !l.ForSystem?
    ensures !l.ForUser? && !l.ForSystem? ==> var u := NameOf(l) + "\n" + t; u[..WordLength(u)] == NameOf(l)
  {
    if !l.ForUser? && !l.ForSystem? { WordEnds(NameOf(l), t); }
  }

  lemma NoMatchInNothing(key: string)
    ensures !Matches(UNIT + key, "")
  {
    MatchStep(UNIT + key, "");
    assert (UNIT + key)[0] == '%';
  }

  /** What the directives of a block say of its unit. */
  ghost function UnitOf(ls: seq<Line>): Unit {
    var user, system := Says(ls, "user\n"), Says(ls, "system\n");
    var socket, service := Says(ls, "socket "), Says(ls, "service ");
    Unit(if user && !system then User else if system && !user then System else AnyScope,
         if socket && !service then Socket else if service && !socket then Service else AnyKind,
         if socket && !service then FirstName(ls, "socket ") else if service && !socket then FirstName(ls, "service ") else None,
         FirstName(ls, "wanted-by "))
  }

  /** The descriptor of a block is what its directives say. */
  lemma BodyDescribed(ls: seq<Line>)
    requires forall l :: l in ls ==> Writable(l)
    ensures Described(Body(ls)) == UnitOf(ls)
  {
    hide Match, Offset, Body, Says, FirstName;
    assert USER == UNIT + "user\n" && SYSTEM == UNIT + "system\n";
    assert SOCKET == UNIT + "socket " && SERVICE == UNIT + "service " && WANTED == UNIT + "wanted-by ";
    FirstAnswer(ls, "user\n");
    FirstAnswer(ls, "system\n");
    FirstAnswer(ls, "socket ");
    FirstAnswer(ls, "service ");
    FirstAnswer(ls, "wanted-by ");
    NameIffSaid(ls, "socket ");
    NameIffSaid(ls, "service ");
  }

  lemma {:induction false} NameIffSaid(ls: seq<Line>, key: string)
    ensures FirstName(ls, key).Some? <==> Says(ls, key)
  {
    if ls != [] && !Answers(ls[0], key) {
      NameIffSaid(ls[1..], key);
      assert ls == [ls[0]] + ls[1..];
    }
  }

  // ------------------------------------------------------------ whole texts of units

  /** A line that can stand in a block: it is no marker. */
  ghost predicate Placeable(l: Line) {
    Writable(l) && (l.Other? ==> !Matches(BEGIN, l.text) && !Matches(END, l.text))
  }

  lemma NoMarker(l: Line, t: string)
    requires Placeable(l)
    ensures !Matches(BEGIN, LineText(l) + t) && !Matches(END, LineText(l) + t)
  {
    hide Match;
    if l.Other? {
      PatternsAreLines();
      MatchIsLocal(BEGIN, l.text, t);
      MatchIsLocal(END, l.text, t);
      assert LineText(l) + t == Full(l.text, t);
    } else {
      var u := LineText(l) + t;
      assert u == UNIT + (Said(l) + "\n" + t);
      assert u[0] == '%' && u[1] == 's';
      SecondLetter(BEGIN, u);
      SecondLetter(END, u);
    }
  }

  lemma SecondLetter(marker: string, t: string)
    requires (marker == BEGIN || marker == END) && |t| > 1 && t[0] == '%' && t[1] == 's'
    ensures !Matches(marker, t)
  {
    hide Match;
    MatchStep(marker, t);
    MatchStep(marker[1..], t[1..]);
  }

  lemma {:induction false} BodyMarkerFree(ls: seq<Line>)
    requires forall l :: l in ls ==> Placeable(l)
    ensures MarkerFree(Body(ls))
    decreases |ls|
  {
    hide Match, Offset, NextLine, LineText, Placeable, Writable, WholeLines;
    OffsetStep(Body(ls), BEGIN);
    OffsetStep(Body(ls), END);
    if ls == [] {
      NothingFree();
    } else {
      var l, more := ls[0], ls[1..];
      assert l in ls;
      NoMarker(l, Body(more));
      PlaceableEnds(l, Body(more));
      BodyMarkerFree(more);
      WholeMore(l, Body(more));
    }
  }

  lemma NothingFree()
    ensures NextLine("") == None && WholeLines("") && !Matches(BEGIN, "") && !Matches(END, "")
  {
    MatchStep(BEGIN, "");
    MatchStep(END, "");
  }

  lemma PlaceableEnds(l: Line, t: string)
    requires Placeable(l)
    ensures NextLine(LineText(l) + t) == Some(t)
  {
    LineEnds(l, t);
  }

  lemma WholeMore(l: Line, t: string)
    requires WholeLines(t)
    ensures WholeLines(LineText(l) + t)
  {
    var s := LineText(l) + t;
    assert s[|s| - 1] == if t == "" then LineText(l)[|LineText(l)| - 1] else t[|t| - 1];
  }

  ghost function Bodies(blocks: seq<seq<Line>>): (r: seq<string>)
    ensures |r| == |blocks|
  {
    seq(|blocks|, i requires 0 <= i < |blocks| => Body(blocks[i]))
  }

  /** Units written as blocks of lines, with text without markers between them, are read back, in order. */
  lemma UnitsRead(gaps: seq<string>, blocks: seq<seq<Line>>, last: string)
    requires |gaps| == |blocks| && MarkerFree(last) && (forall i :: 0 <= i < |gaps| ==> MarkerFree(gaps[i]))
    requires forall i, l :: 0 <= i < |blocks| && l in blocks[i] ==> Placeable(l)
    ensures var text := Assembled(gaps, Bodies(blocks), last);
            && WellFormed(text, false) && Blocks(text, None) == Bodies(blocks)
            && forall i :: 0 <= i < |blocks| ==> Described(Blocks(text, None)[i]) == UnitOf(blocks[i])
  {
    hide MarkerFree, Body, Placeable, Described, UnitOf, WellFormed, Blocks, Assembled;
    forall i | 0 <= i < |blocks| ensures MarkerFree(Body(blocks[i])) && Described(Body(blocks[i])) == UnitOf(blocks[i]) {
      BodyMarkerFree(blocks[i]);
      assert forall l :: l in blocks[i] ==> Writable(l) by {
        forall l | l in blocks[i] ensures Writable(l) { PlaceableWritable(l); }
      }
      BodyDescribed(blocks[i]);
    }
    AssembledRead(gaps, Bodies(blocks), last);
  }

  lemma PlaceableWritable(l: Line)
    requires Placeable(l)
    ensures Writable(l)
  {
  }
}
