/**
 How units are written in a corpus, and what patterns accept
 (src/units/unit-process.c).
 */
module CorpusMeaning {
  import opened Corpus
  import opened CorpusText
  import opened Options

  // --------------------------------------------------------------------- patterns

  ghost predicate Blanks(s: string) {
    forall i :: 0 <= i < |s| ==> s[i] == ' ' || s[i] == '\t'
  }

  lemma {:induction false} BlanksSkipped(b: string, t: string)
    requires Blanks(b) && (t != "" ==> t[0] != ' ' && t[0] != '\t')
    ensures SkipBlanks(b + t) == t
    decreases |b|
  {
    if b == "" {
      assert b + t == t;
    } else {
      assert (b + t)[0] == b[0] && (b + t)[1..] == b[1..] + t;
      BlanksSkipped(b[1..], t);
    }
  }

  /** A character stands for itself. */
  lemma CharacterMatches(c: char, p: string, t: string, other: char)
    requires c != ' ' && c != '\n' && other != c
    ensures Match([c] + p, [c] + t) == Match(p, t) && Match([c] + p, [other] + t) == None && Match([c] + p, "") == None
  {
    assert ([c] + p)[1..] == p && ([c] + t)[1..] == t;
  }

  /** A space stands for some blanks, at least one. */
  lemma SpaceMatches(p: string, b: string, t: string)
    requires Blanks(b) && (t != "" ==> t[0] != ' ' && t[0] != '\t')
    ensures Match(" " + p, b + t) == if b == "" then None else Match(p, t)
  {
    assert (" " + p)[1..] == p;
    if b == "" {
      assert b + t == t;
    } else {
      assert (b + t)[0] == b[0];
      BlanksSkipped(b, t);
    }
  }

  /** A newline stands for the end of a line, or of the text, and the blanks before it. */
  lemma NewlineMatches(p: string, b: string, t: string, c: char)
    requires Blanks(b) && c != ' ' && c != '\t' && c != '\n'
    ensures Match("\n" + p, b + "\n" + t) == Match(p, t) && Match("\n" + p, b) == Match(p, "") && Match("\n" + p, b + [c] + t) == None
  {
    assert ("\n" + p)[1..] == p;
    assert b + "\n" + t == b + ("\n" + t) && ("\n" + t)[1..] == t && b + "" == b && b + [c] + t == b + ([c] + t);
    BlanksSkipped(b, "\n" + t);
    BlanksSkipped(b, "");
    BlanksSkipped(b, [c] + t);
  }

  // ------------------------------------------------------------------------ units

  /** The lines of a unit. */
  lemma LinesWritten(name: string, text: string)
    ensures LineText(ForUser) == "%systemd-unit user\n" && LineText(ForSystem) == "%systemd-unit system\n"
    ensures LineText(IsSocket(name)) == "%systemd-unit socket " + name + "\n"
    ensures LineText(IsService(name)) == "%systemd-unit service " + name + "\n"
    ensures LineText(IsWanted(name)) == "%systemd-unit wanted-by " + name + "\n"
    ensures LineText(Other(text)) == text + "\n"
  {
    assert UNIT + "user" + "\n" == "%systemd-unit user\n" && UNIT + "system" + "\n" == "%systemd-unit system\n";
    assert UNIT + ("socket " + name) == "%systemd-unit socket " + name;
    assert UNIT + ("service " + name) == "%systemd-unit service " + name;
    assert UNIT + ("wanted-by " + name) == "%systemd-unit wanted-by " + name;
    assert "" + text == text;
  }

  /** A unit stands between a line %begin and a line %end. */
  lemma BlockWritten(gap: string, body: string)
    ensures BlockText(gap, body) == gap + "%begin systemd-unit\n" + body + "%end systemd-unit\n"
  {
  }

  lemma Single(l: Line)
    ensures forall key :: Says([l], key) <==> Answers(l, key)
    ensures forall key :: FirstName([l], key) == if Answers(l, key) then Some(NameOf(l)) else None
  {
    assert [l][0] == l && [l][1..] == [];
    forall key ensures Says([l], key) <==> Answers(l, key) { assert l in [l]; }
  }

  lemma Pair(a: Line, b: Line)
    ensures forall key :: Says([a, b], key) <==> Answers(a, key) || Answers(b, key)
    ensures forall key :: FirstName([a, b], key) ==
              if Answers(a, key) then Some(NameOf(a)) else if Answers(b, key) then Some(NameOf(b)) else None
  {
    assert [a, b][1..] == [b];
    Single(b);
    forall key ensures Says([a, b], key) <==> Answers(a, key) || Answers(b, key) { assert a in [a, b] && b in [a, b]; }
  }

  /** What one directive says. */
  lemma OneDirective(name: string, text: string)
    ensures UnitOf([]) == Unit(AnyScope, AnyKind, None, None) == UnitOf([Other(text)])
    ensures UnitOf([ForUser]) == Unit(User, AnyKind, None, None) && UnitOf([ForSystem]) == Unit(System, AnyKind, None, None)
    ensures UnitOf([IsSocket(name)]) == Unit(AnyScope, Socket, Some(name), None)
    ensures UnitOf([IsService(name)]) == Unit(AnyScope, Service, Some(name), None)
    ensures UnitOf([IsWanted(name)]) == Unit(AnyScope, AnyKind, None, Some(name))
  {
    hide Says, FirstName;
    Nothing();
    Single(Other(text));
    Single(ForUser);
    Single(ForSystem);
    Single(IsSocket(name));
    Single(IsService(name));
    Single(IsWanted(name));
  }

  lemma Nothing()
    ensures forall key :: !Says([], key) && FirstName([], key) == None
  {
  }

  /** Directives that contradict each other say nothing; of two of a kind the first counts. */
  lemma TwoDirectives(a: string, b: string)
    ensures UnitOf([ForUser, ForSystem]) == Unit(AnyScope, AnyKind, None, None)
    ensures UnitOf([IsSocket(a), IsService(b)]) == Unit(AnyScope, AnyKind, None, None)
    ensures UnitOf([IsService(a), IsService(b)]) == Unit(AnyScope, Service, Some(a), None)
    ensures UnitOf([IsWanted(a), IsWanted(b)]) == Unit(AnyScope, AnyKind, None, Some(a))
  {
    hide Says, FirstName;
    Pair(ForUser, ForSystem);
    Pair(IsSocket(a), IsService(b));
    Pair(IsService(a), IsService(b));
    Pair(IsWanted(a), IsWanted(b));
  }
}
