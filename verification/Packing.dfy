/**
 What packing keeps of a text, line by line (src/units/unit-process.c, `pack`).
 */
module Packing {
  import opened Corpus
  import opened TextLines

  /** Lines, each ended by a newline. */
  function Whole(lines: seq<string>): string {
    if lines == [] then "" else lines[0] + "\n" + Whole(lines[1..])
  }

  /** A line without the blanks it begins with. */
  function Trimmed(line: string): (r: string)
    ensures |r| <= |line|
    ensures r != "" ==> !IsBlank(r[0])
    decreases |line|
  {
    if line != "" && IsBlank(line[0]) then Trimmed(line[1..]) else line
  }

  /** Is the line continued by the next one? */
  predicate Continued(line: string) {
    line != "" && line[|line| - 1] == '\\'
  }

  predicate Directive(line: string, purge: char) {
    line != "" && line[0] == purge
  }

  /** A directive leaves nothing, but the one that asks for an empty line. */
  function Purged(line: string, purge: char): seq<string> {
    if !Directive(line, purge) then [line]
    else if line == [purge] + "nl" then [""]
    else []
  }

  /**
   The line that a line leaves, if any. Blank lines leave none, unless they end
   a continuation. Other lines lose the blanks they begin with, unless they
   continue the line before.
   */
  function Left(line: string, cont: bool, purge: char): seq<string> {
    var body := Trimmed(line);
    if body == "\\" || (body == "" && !cont) then []
    else Purged(if cont then line else body, purge)
  }

  function AllLeft(lines: seq<string>, cont: bool, purge: char): seq<string> {
    if lines == [] then [] else Left(lines[0], cont, purge) + AllLeft(lines[1..], Continued(lines[0]), purge)
  }

  lemma {:induction false} CountingIsTrimmed(line: string, i: nat)
    requires i <= |line|
    ensures var k := FirstCounting(line, true, i);
            var body := Trimmed(line[i..]);
            if k < |line| then body == line[k..] && body != "\\" && body != "" else body == "" || body == "\\"
    decreases |line| - i
  {
    if i < |line| {
      var s := line[i..];
      if IsBlank(line[i]) {
        assert s[1..] == line[i + 1..];
        CountingIsTrimmed(line, i + 1);
      } else if i == |line| - 1 {
        assert s == [line[i]];
        if line[i] == '\\' { assert FirstCounting(line, true, i + 1) == |line|; }
      } else {
        assert |s| > 1;
      }
    }
  }

  lemma WholeConcat(a: seq<string>, b: seq<string>)
    ensures Whole(a + b) == Whole(a) + Whole(b)
    decreases |a|
  {
    if a == [] {
      assert a + b == b;
    } else {
      assert (a + b)[1..] == a[1..] + b;
      WholeConcat(a[1..], b);
    }
  }

  lemma PurgedIs(line: string, purge: char)
    requires purge != '\n' && '\n' !in line
    ensures KeptText(line + "\n", purge) == Whole(Purged(line, purge))
  {
    var kept := line + "\n";
    forall i | 0 <= i < |line| ensures kept[i] != '\n' { assert kept[i] == line[i] && line[i] in line; }
    assert |line| == 3 ==> kept[1..4] == line[1..] + "\n";
    if line != "" && line[0] == purge {
      if |kept| >= 4 && kept[1..4] == "nl\n" {
        assert kept[3] == kept[1..4][2] == '\n';
        assert |line| == 3;
        assert line == [line[0]] + kept[1..4][..2];
      }
    }
  }

  lemma LineLeft(line: string, cont: bool, purge: char)
    requires purge != '\n' && '\n' !in line
    ensures PackLine(line, true, cont, purge) == Whole(Left(line, cont, purge))
  {
    var k, body := FirstCounting(line, true, 0), Trimmed(line);
    assert line[0..] == line;
    CountingIsTrimmed(line, 0);
    if k < |line| {
      PurgedIs(if cont then line else body, purge);
    } else if cont && !Continues(line, true) {
      TrimmedEnd(line);
      PurgedIs(line, purge);
    } else {
      TrimmedEnd(line);
    }
  }

  lemma {:induction false} TrimmedEnd(line: string)
    ensures Trimmed(line) != "" ==> line != "" && line[|line| - 1] == Trimmed(line)[|Trimmed(line)| - 1]
    ensures Trimmed(line) == "" && line != "" ==> IsBlank(line[|line| - 1])
    decreases |line|
  {
    if line != "" && IsBlank(line[0]) { TrimmedEnd(line[1..]); }
  }

  lemma NothingPacked(cont: bool, purge: char)
    ensures PackText("", cont, purge) == ""
  {
  }

  lemma FirstPacked(a: string, b: string, cont: bool, purge: char)
    requires '\n' !in a
    ensures PackText(a + "\n" + b, cont, purge) == PackLine(a, true, cont, purge) + PackText(b, Continued(a), purge)
  {
    hide PackLine;
    var t := a + "\n" + b;
    LineLengthIs(a, b);
    assert t[..|a|] == a && t[|a| + 1..] == b;
  }

  /** Packing a text leaves the lines that its lines leave, in order. */
  lemma {:induction false} PackedLines(lines: seq<string>, cont: bool, purge: char)
    requires purge != '\n' && forall i :: 0 <= i < |lines| ==> '\n' !in lines[i]
    ensures PackText(Whole(lines), cont, purge) == Whole(AllLeft(lines, cont, purge))
    decreases |lines|
  {
    hide PackLine, Left, PackText;
    if lines == [] {
      NothingPacked(cont, purge);
    } else {
      var a, more := lines[0], lines[1..];
      FirstPacked(a, Whole(more), cont, purge);
      LineLeft(a, cont, purge);
      PackedLines(more, Continued(a), purge);
      WholeConcat(Left(a, cont, purge), AllLeft(more, Continued(a), purge));
    }
  }

  // --------------------------------------------------------------- what that means

  /** Neither continued nor a directive. */
  predicate Plain(line: string, purge: char) {
    !Continued(line) && !Directive(Trimmed(line), purge)
  }

  /** The lines that are not blank, without the blanks they begin with. */
  function NotBlank(lines: seq<string>): seq<string> {
    if lines == [] then [] else (if Trimmed(lines[0]) == "" then [] else [Trimmed(lines[0])]) + NotBlank(lines[1..])
  }

  /** Of plain lines exactly those that are not blank survive, in order. */
  lemma {:induction false} PlainSurvive(lines: seq<string>, purge: char)
    requires purge != '\n' && forall i :: 0 <= i < |lines| ==> '\n' !in lines[i] && Plain(lines[i], purge)
    ensures PackText(Whole(lines), false, purge) == Whole(NotBlank(lines))
  {
    hide PackText, Whole;
    PackedLines(lines, false, purge);
    PlainLeft(lines, purge);
  }

  lemma {:induction false} PlainLeft(lines: seq<string>, purge: char)
    requires forall i :: 0 <= i < |lines| ==> Plain(lines[i], purge)
    ensures AllLeft(lines, false, purge) == NotBlank(lines)
    decreases |lines|
  {
    if lines != [] {
      TrimmedEnd(lines[0]);
      PlainLeft(lines[1..], purge);
    }
  }

  /** The line that continues another survives as it is, even blank, when it is no directive. */
  lemma ContinuationStays(a: string, b: string, more: seq<string>, purge: char)
    requires purge != '\n' && '\n' !in a && '\n' !in b && forall i :: 0 <= i < |more| ==> '\n' !in more[i]
    requires Continued(a) && Trimmed(a) != "\\" && !Directive(Trimmed(a), purge) && !Continued(b) && !Directive(b, purge)
    ensures PackText(Whole([a, b] + more), false, purge) == Whole([Trimmed(a), b]) + PackText(Whole(more), false, purge)
  {
    hide PackText, Whole, Trimmed, Purged;
    var lines, rest := [a, b] + more, AllLeft(more, false, purge);
    TrimmedEnd(a);
    TrimmedEnd(b);
    FirstLeft(a, [b] + more, false, purge);
    FirstLeft(b, more, true, purge);
    assert lines == [a] + ([b] + more);
    PurgedNot(Trimmed(a), purge);
    PurgedNot(b, purge);
    assert AllLeft(lines, false, purge) == [Trimmed(a), b] + rest;
    WholeConcat([Trimmed(a), b], rest);
    PackedLines(lines, false, purge);
    PackedLines(more, false, purge);
  }

  lemma FirstLeft(a: string, more: seq<string>, cont: bool, purge: char)
    ensures AllLeft([a] + more, cont, purge) == Left(a, cont, purge) + AllLeft(more, Continued(a), purge)
  {
    assert ([a] + more)[1..] == more;
  }

  lemma PurgedNot(line: string, purge: char)
    requires !Directive(line, purge)
    ensures Purged(line, purge) == [line]
  {
  }
}
