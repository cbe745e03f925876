/**
 Serving a client (src/afmpkg/afmpkg-server.c, `afmpkg_serve`): the request is
 processed as soon as its reception met no error, whether its end was read or not.
 */
module Serving {
  import opened Options
  import opened Paths
  import opened TextLines
  import opened Request
  import opened Wire
  import opened Server
  import opened Transactions
  import opened Ledger

  /** The request says what the message says, whether its end was read or not. */
  ghost predicate Asks(r: Req, m: Message) {
    r.(state := Ready) == Requested(m)
  }

  // -------------------------------------------------------------- the first lines

  /** The lines of a message before its files. */
  function Head(m: Message): nat {
    4 + |Details(m)|
  }

  /** The files named by the first lines of a message. */
  function FilesIn(m: Message, k: nat): seq<string>
    requires Head(m) <= k
  {
    if k - Head(m) <= |m.files| then m.files[..k - Head(m)] else m.files
  }

  /** Do the first lines of a message say all of it but its end? */
  ghost predicate Enough(m: Message, k: nat) {
    Head(m) <= k && FileSet(FilesIn(m, k)) == FileSet(m.files)
  }

  lemma {:induction false} FileLinesAre(files: seq<string>)
    ensures |FileLines(files)| == |files|
    ensures forall k :: 0 <= k <= |files| ==> FileLines(files)[..k] == FileLines(files[..k])
    decreases |files|
  {
    if files != [] {
      var n := |files| - 1;
      FileLinesAre(files[..n]);
      forall k | 0 <= k <= |files| ensures FileLines(files)[..k] == FileLines(files[..k]) {
        if k <= n {
          assert files[..n][..k] == files[..k];
          assert FileLines(files)[..k] == FileLines(files[..n])[..k];
        } else {
          assert files[..k] == files;
        }
      }
    }
  }

  lemma LinesCount(m: Message)
    ensures |Lines(m)| == Head(m) + |m.files| + 1 && |FileLines(m.files)| == |m.files|
  {
    hide FileLines, Details;
    FileLinesAre(m.files);
  }

  /** What is read of the first lines of a message, once those before the files are among them. */
  lemma PrefixRead(m: Message, k: nat)
    requires Sendable(m) && Head(m) <= k < |Lines(m)|
    ensures AddLines(INIT, Lines(m)[..k]) == Requested(m).(state := Pending, files := FileSet(FilesIn(m, k)))
  {
    hide AddLines, AddLine, Opening, Details, FileLines, Clean, Line;
    LinesCount(m);
    FileLinesAre(m.files);
    var fs := FilesIn(m, k);
    assert Lines(m)[..k] == Opening(m) + Details(m) + FileLines(fs);
    var r1 := INIT.(kind := KindOf(m.op), package := Some(m.package), index := m.index, count := m.count);
    var r2 := r1.(root := m.root, transid := m.transid, redpakid := m.redpakid);
    ReadOpening(m);
    ReadDetails(r1, m);
    ReadFiles(r2, fs);
    assert r2.files + FileSet(fs) == FileSet(fs);
    AddLinesConcat(INIT, Opening(m), Details(m));
    AddLinesConcat(INIT, Opening(m) + Details(m), FileLines(fs));
  }

  /** Until its last line is read, a message leaves the request pending. */
  lemma PendingBefore(m: Message, k: nat)
    requires Sendable(m) && k < |Lines(m)|
    ensures AddLines(INIT, Lines(m)[..k]).state == Pending && Consistent(AddLines(INIT, Lines(m)[..k]))
    ensures k > 0 ==> AddLines(INIT, Lines(m)[..k]).kind != Unset
  {
    hide Lines, Sendable, AddLine;
    var ls := Lines(m);
    var r := AddLines(INIT, ls[..k]);
    MessageAccepted(m);
    RunKeeps(INIT, ls[..k]);
    assert ls == ls[..k] + ls[k..];
    AddLinesConcat(INIT, ls[..k], ls[k..]);
    if r.state != Pending {
      Absorbed(r, ls[k..]);
      assert false;
    }
    if k > 0 {
      FirstIsBegin(m);
      assert ls[..k] == [ls[0]] + ls[1..k];
      AddLinesConcat(INIT, [ls[0]], ls[1..k]);
      OneLine(INIT, ls[0]);
      ReadOperation(INIT, m.op);
      StepKeeps(INIT, ls[0]);
      RunKeeps(AddLine(INIT, ls[0]), ls[1..k]);
    }
  }

  lemma FirstIsBegin(m: Message)
    ensures Lines(m) != [] && Lines(m)[0] == Line("BEGIN", Word(m.op)) && INIT.kind == Unset
  {
    hide Details, FileLines, Decimal;
  }

  /** After its last line a request does not stay ready. */
  lemma Absorbed(r: Req, lines: seq<string>)
    requires Consistent(r) && r.state != Pending && lines != []
    ensures AddLines(r, lines).state == Failed
  {
    var q := AddLine(r, lines[0]);
    ErrorSticks(q, lines[1..]);
  }

  /** A line before the files is refused by a request that has it already. */
  lemma Refused(r: Req, m: Message, k: nat)
    requires r.state == Pending && Asks(r, m) && Sendable(m) && k < Head(m)
    ensures k < |Lines(m)| && AddLine(r, Lines(m)[k]).state == Failed
  {
    hide FileLines, Decimal, HasKey, Line, ArgText, StrToL, Word, Sendable;
    LinesCount(m);
    assert Lines(m)[k] == (Opening(m) + Details(m))[k];
    var key, val := KeyOf(m, k);
    OnlyOwnKeys(key, val);
    assert r.kind == KindOf(m.op) != Unset && r.index == m.index != 0 && r.count == m.count != 0 by { Counted(m); }
  }

  lemma Counted(m: Message)
    requires Sendable(m)
    ensures m.index != 0 && m.count != 0
  {
  }

  /** The key of a line before the files. */
  lemma KeyOf(m: Message, k: nat) returns (key: string, val: string)
    requires k < Head(m)
    ensures (Opening(m) + Details(m))[k] == Line(key, val)
    ensures key in {"BEGIN", "PACKAGE", "INDEX", "COUNT", "ROOT", "TRANSID", "REDPAKID"}
    ensures key == "ROOT" ==> m.root.Some?
    ensures key == "TRANSID" ==> m.transid.Some?
    ensures key == "REDPAKID" ==> m.redpakid.Some?
  {
    hide Line, Decimal, Word;
    var ls := Opening(m) + Details(m);
    if k < 4 {
      assert ls[k] == Opening(m)[k];
      key := ["BEGIN", "PACKAGE", "INDEX", "COUNT"][k];
      val := [Word(m.op), m.package, Decimal(m.index), Decimal(m.count)][k];
    } else {
      assert ls[k] == Details(m)[k - 4];
      var a, b := |LineOf("ROOT", m.root)|, |LineOf("TRANSID", m.transid)|;
      if k - 4 < a {
        key, val := "ROOT", m.root.value;
      } else if k - 4 < a + b {
        key, val := "TRANSID", m.transid.value;
      } else {
        key, val := "REDPAKID", m.redpakid.value;
      }
    }
  }

  /** The first lines of a message make the request it asks for exactly when they are enough. */
  lemma EnoughIff(m: Message, k: nat)
    requires Sendable(m) && k < |Lines(m)|
    ensures Asks(AddLines(INIT, Lines(m)[..k]), m) <==> Enough(m, k)
  {
    hide AddLines, AddLine, Lines, Sendable, Details, FileSet, FilesIn;
    var ls := Lines(m);
    var r := AddLines(INIT, ls[..k]);
    if Head(m) <= k {
      PrefixRead(m, k);
    } else if Asks(r, m) {
      PendingBefore(m, k);
      Refused(r, m, k);
      PendingNext(m, k);
      assert false;
    }
  }

  lemma PendingNext(m: Message, k: nat)
    requires Sendable(m) && k < |Lines(m)|
    ensures AddLine(AddLines(INIT, Lines(m)[..k]), Lines(m)[k]).state != Failed
  {
    hide AddLine, AddLines, Lines, Sendable;
    var ls := Lines(m);
    assert ls[..k + 1] == ls[..k] + [ls[k]];
    AddLinesConcat(INIT, ls[..k], [ls[k]]);
    OneLine(AddLines(INIT, ls[..k]), ls[k]);
    if k + 1 < |ls| {
      PendingBefore(m, k + 1);
    } else {
      assert ls[..k + 1] == ls;
      MessageAccepted(m);
    }
  }

  // -------------------------------------------------------------- the first piece

  lemma {:induction false} SplitLines(lines: seq<string>, rest: string)
    requires (forall i :: 0 <= i < |lines| ==> Travels(lines[i])) && '\n' !in rest
    ensures Split(Text(lines) + rest) == (lines, rest)
    decreases |lines|
  {
    hide Split, Text;
    if lines == [] {
      NoText();
      assert "" + rest == rest;
      NoNewline(rest);
    } else {
      var a, more := lines[0], lines[1..];
      var b := Text(more) + rest;
      assert lines == [a] + more;
      TextConcat([a], more);
      TextOne(a);
      assert Text(lines) + rest == a + "\n" + b;
      assert Travels(a);
      LineLengthIs(a, b);
      SplitFirst(a + "\n" + b);
      SplitLines(more, rest);
      assert (a + "\n" + b)[..|a|] == a && (a + "\n" + b)[|a| + 1..] == b;
    }
  }

  lemma NoNewline(c: string)
    requires '\n' !in c
    ensures Split(c) == ([], c)
  {
    UpToAll(c, '\n');
  }

  /** A text cut short of its end: its lines are the first of the whole, and then comes the beginning of the next. */
  lemma {:induction false} LinesOfPrefix(lines: seq<string>, c: string) returns (j: nat, rest: string)
    requires (forall i :: 0 <= i < |lines| ==> Travels(lines[i])) && c < Text(lines)
    ensures j < |lines| && Split(c) == (lines[..j], rest) && c == Text(lines[..j]) + rest && '\n' !in rest
    decreases |lines|
  {
    hide Split, Text;
    if lines == [] {
      NoText();
      assert false;
    } else {
      var n := |lines| - 1;
      var a, most := lines[n], lines[..n];
      assert lines == most + [a];
      TextConcat(most, [a]);
      TextOne(a);
      var t := Text(most) + (a + "\n");
      assert c == t[..|c|];
      if |c| < |Text(most)| {
        assert c == Text(most)[..|c|];
        j, rest := LinesOfPrefix(most, c);
        assert most[..j] == lines[..j];
      } else {
        assert Travels(a);
        j, rest := n, a[..|c| - |Text(most)|];
        assert c == Text(most) + rest;
        SplitLines(most, rest);
      }
    }
  }

  lemma MessageTravels(m: Message)
    requires Sendable(m)
    ensures forall i :: 0 <= i < |Lines(m)| ==> Travels(Lines(m)[i])
  {
    hide Lines, Travels, Sendable;
    forall i | 0 <= i < |Lines(m)| ensures Travels(Lines(m)[i]) { LinesTravel(m, i); }
  }

  // -------------------------------------------------- a first piece that ends a line

  /** After `held` characters, no newline of these pieces is looked at. */
  ghost predicate Unseen(held: nat, pieces: seq<string>)
    decreases |pieces|
  {
    pieces != [] ==>
      && (|pieces[0]| > held ==> '\n' !in pieces[0][..|pieces[0]| - held])
      && Unseen(|pieces[0]|, pieces[1..])
  }

  /** A line that begins as BEGIN does is refused once the kind is known. */
  lemma BeginAgain(r: Req, lines: seq<string>)
    requires r.state == Pending && r.scode == 0 && r.kind != Unset && lines != [] && lines[0] != "" && lines[0][0] == 'B'
    ensures AddLines(r, lines).state == Failed && AddLines(r, lines).scode != 0
  {
    hide AddLine;
    BeginTwice(r, lines[0]);
    ErrorSticks(AddLine(r, lines[0]), lines[1..]);
  }

  lemma BeginTwice(r: Req, line: string)
    requires r.state == Pending && r.scode == 0 && r.kind != Unset && line != "" && line[0] == 'B'
    ensures AddLine(r, line).state == Failed && AddLine(r, line).scode != 0
  {
    hide HasKey, OperationKind, ArgText, Arg, StrToL, Components;
    forall key: string | key != "" && key[0] != 'B' ensures !HasKey(line, key) {
      OtherKey(line, key, 0);
    }
  }

  /** What begins a text without newline begins its first line, whatever comes after. */
  lemma FirstOfSeen(e: string, more: string)
    requires '\n' !in e && e != ""
    ensures var lines := Split(e + more).0;
            (lines == [] <==> '\n' !in more) && (lines != [] ==> lines[0] != "" && lines[0][0] == e[0])
  {
    hide Split;
    var t := e + more;
    var n := LineLength(t);
    forall i | 0 <= i < |e| ensures t[i] != '\n' { assert t[i] == e[i] && e[i] in e; }
    SplitFirst(t);
    if '\n' in more {
      var i :| 0 <= i < |more| && more[i] == '\n';
      assert t[|e| + i] == '\n';
      NewlineFound(t, |e| + i);
    } else {
      assert '\n' !in t;
      NoNewline(t);
    }
  }

  lemma {:induction false} NewlineFound(t: string, i: nat)
    requires i < |t| && t[i] == '\n'
    ensures LineLength(t) < |t|
    decreases i
  {
    if t[0] != '\n' { NewlineFound(t[1..], i - 1); }
  }

  /** After a piece that ends a line what was read is looked at again: another newline is an error, and only that. */
  lemma {:induction false} AfterLine(r: Req, held: string, pieces: seq<string>)
    requires r.state == Pending && r.scode == 0 && r.kind != Unset
    requires held != "" && held[0] == 'B' && '\n' !in held && forall i :: 0 <= i < |pieces| ==> pieces[i] != ""
    ensures if Unseen(|held|, pieces) then Heard(r, held, pieces) == r else Heard(r, held, pieces).state == Failed && Heard(r, held, pieces).scode != 0
    decreases |pieces|
  {
    hide AddLines, Split, Ended;
    if pieces != [] {
      var p, more := pieces[0], pieces[1..];
      var seen := Seen(held, p);
      var n := if |p| <= |held| then |p| else |held|;
      var e, x := held[..n], if |p| <= |held| then "" else p[..|p| - |held|];
      assert seen == e + x;
      FirstOfSeen(e, x);
      if '\n' in x {
        BeginAgain(r, Split(seen).0);
        HeardAfterError(AddLines(r, Split(seen).0), Held(seen), more);
      } else {
        NoNewline(seen);
        NoLines(r);
        AfterLine(r, seen, more);
      }
    }
  }

  /** What is held after a piece that ends a line. */
  lemma HeldAfterLine(m: Message, c: string, j: nat)
    requires Sendable(m) && 0 < j < |Lines(m)| && c == Text(Lines(m)[..j]) && Split(c).1 == ""
    ensures var h := Held(c); |h| == |c| && h != "" && h[0] == 'B' && '\n' !in h
  {
    hide Split, Ended, Text, Lines, Sendable, Tame, Ending;
    MessageTame(m);
    var ls := Lines(m);
    var t := Text(ls);
    assert ls == ls[..j] + ls[j..];
    TextConcat(ls[..j], ls[j..]);
    MessageTravels(m);
    TextNotEmpty(ls[j..]);
    TamePrefix(t[..|t| - 1], |c|);
    assert t[..|t| - 1][..|c|] == c;
    FirstIsBegin(m);
    TextBegins(ls[..j]);
    EndedChars(c);
    assert ls[..j][0] == ls[0] && ls[0][0] == 'B' by { BeginLine(m); }
    forall i | 0 <= i < |c| ensures Ended(c)[i] != '\n' {}
  }

  lemma BeginLine(m: Message)
    ensures Line("BEGIN", Word(m.op)) != "" && Line("BEGIN", Word(m.op))[0] == 'B'
  {
  }

  lemma TextNotEmpty(lines: seq<string>)
    requires lines != []
    ensures Text(lines) != ""
  {
  }

  lemma TextBegins(lines: seq<string>)
    requires lines != [] && lines[0] != ""
    ensures Text(lines) != "" && Text(lines)[0] == lines[0][0]
  {
    hide Text;
    assert lines == [lines[0]] + lines[1..];
    TextConcat([lines[0]], lines[1..]);
    TextOne(lines[0]);
  }

  /**
   A message whose first piece ends with a line, whatever the other pieces: it
   is what was asked exactly when that piece says enough and no newline is
   looked at afterwards. Without such a newline there is no error either.
   */
  lemma CutAfterLineIff(m: Message, pieces: seq<string>)
    requires Sendable(m) && Joined(pieces) == Text(Lines(m)) && |pieces| > 1
    requires (forall i :: 0 <= i < |pieces| ==> pieces[i] != "") && Split(pieces[0]).1 == ""
    ensures var heard, j := Heard(INIT, "", pieces), |Split(pieces[0]).0|;
            && j < |Lines(m)|
            && (if Unseen(|pieces[0]|, pieces[1..]) then heard == AddLines(INIT, Lines(m)[..j]) else heard.state == Failed && heard.scode != 0)
            && (Asks(heard, m) <==> Unseen(|pieces[0]|, pieces[1..]) && Enough(m, j))
  {
    hide AddLines, Split, Lines, Text, Ended, Heard, Sendable, Unseen, Held, Enough;
    var ls, c, more := Lines(m), pieces[0], pieces[1..];
    MessageTravels(m);
    assert Joined(pieces) == c + Joined(more);
    assert more[0] == pieces[1] && Joined(more) == more[0] + Joined(more[1..]);
    assert c == Text(ls)[..|c|] && |c| < |Text(ls)|;
    var j, rest := LinesOfPrefix(ls, c);
    assert Text(ls[..j]) + "" == Text(ls[..j]);
    if j == 0 { assert ls[..j] == []; NoText(); assert false; }
    HeardStep(INIT, "", pieces, 0);
    assert pieces[0..] == pieces && Seen("", c) == c;
    var r := AddLines(INIT, ls[..j]);
    PendingBefore(m, j);
    HeldAfterLine(m, c, j);
    AfterLine(r, Held(c), more);
    EnoughIff(m, j);
    FailedAsksNot(Heard(INIT, "", pieces), m);
  }

  lemma FailedAsksNot(r: Req, m: Message)
    ensures r.scode != 0 ==> !Asks(r, m)
  {
  }

  // ------------------------------------------------------------------- two pieces

  /** The part of a message whose lines are read, when it comes as `c` and `d`. */
  function Looked(c: string, d: string): string
    requires |Split(c).1| <= |c|
  {
    var tail := Split(c).1;
    if tail == "" then c else (c + d)[..|c| - |tail| + |d|]
  }

  lemma CutText(a: string, b: string, tail: string, d: string)
    requires a + tail + d <= a + b && tail != ""
    ensures |d| < |b| && (tail + d)[..|d|] == b[..|d|] && (a + tail + d)[..|a| + |d|] == a + b[..|d|]
  {
    var n := |tail| + |d|;
    assert a + tail + d == (a + b)[..|a| + n] == a + b[..n];
    assert tail + d == (a + tail + d)[|a|..] == b[..n];
  }

  /** A first piece that ends inside a line: the second is understood but for as many characters as are held. */
  lemma InLine(m: Message, c: string, d: string)
    requires Sendable(m) && c + d <= Text(Lines(m)) && d != "" && Split(c).1 != ""
    ensures |Split(c).1| <= |c|
    ensures var k := |Split(Looked(c, d)).0|;
            && k < |Lines(m)| && Text(Lines(m)[..k]) <= Looked(c, d)
            && AddLines(AddLines(INIT, Split(c).0), Split(Seen(Split(c).1, d)).0) == AddLines(INIT, Lines(m)[..k])
  {
    hide AddLines, Split, Lines, Text, Sendable;
    RestShorter(c);
    var ls := Lines(m);
    MessageTravels(m);
    assert c == Text(ls)[..|c|];
    var j, tail := LinesOfPrefix(ls, c);
    var left := ls[j..];
    assert ls == ls[..j] + left;
    TextConcat(ls[..j], left);
    var seen := Seen(tail, d);
    CutText(Text(ls[..j]), Text(left), tail, d);
    assert seen == Text(left)[..|d|];
    assert forall i :: 0 <= i < |left| ==> Travels(left[i]);
    var i, after := LinesOfPrefix(left, seen);
    assert ls[..j] + left[..i] == ls[..j + i];
    TextConcat(ls[..j], left[..i]);
    assert Looked(c, d) == Text(ls[..j]) + seen;
    assert Text(ls[..j]) + (Text(left[..i]) + after) == Text(ls[..j + i]) + after;
    SplitLines(ls[..j + i], after);
    AddLinesConcat(INIT, ls[..j], left[..i]);
  }

  /**
   A message in two pieces. Unless what is looked at again holds a newline, some
   of its first lines are read, without error; and it is what was asked exactly
   when those are enough.
   */
  lemma TwoPiecesIff(m: Message, c: string, d: string)
    requires Sendable(m) && c != "" && d != "" && c + d == Text(Lines(m))
    ensures |Split(c).1| <= |c|
    ensures var heard, k := Heard(INIT, "", [c, d]), |Split(Looked(c, d)).0|;
            var again := Split(c).1 == "" && !Unseen(|c|, [d]);
            && k < |Lines(m)|
            && (if again then heard.state == Failed && heard.scode != 0 else heard == AddLines(INIT, Lines(m)[..k]))
            && (Asks(heard, m) <==> !again && Enough(m, k))
  {
    hide AddLines, Split, Lines, Text, Ended, Heard, Sendable, Unseen, Held, Enough;
    RestShorter(c);
    var tail := Split(c).1;
    assert [c, d][1..] == [d] && [d][1..] == [];
    JoinedOne(d);
    assert Joined([c, d]) == c + d;
    if tail == "" {
      CutAfterLineIff(m, [c, d]);
    } else {
      HeardTwo(c, d, []);
      assert [c, d] + [] == [c, d];
      InLine(m, c, d);
      HeardNothing(AddLines(INIT, Lines(m)[..|Split(Looked(c, d)).0|]), Held(Seen(tail, d)));
      EnoughIff(m, |Split(Looked(c, d)).0|);
    }
  }

  lemma JoinedOne(d: string)
    ensures Joined([d]) == d
  {
    assert [d][1..] == [] && d + "" == d;
  }

  lemma HeardTwo(c: string, d: string, more: seq<string>)
    requires Split(c).1 != ""
    ensures var tail := Split(c).1;
            Heard(INIT, "", [c, d] + more) ==
            Heard(AddLines(AddLines(INIT, Split(c).0), Split(Seen(tail, d)).0), Held(Seen(tail, d)), more)
  {
    hide AddLines, Split, Heard, Ended;
    var pieces := [c, d] + more;
    HeardStep(INIT, "", pieces, 0);
    assert pieces[0..] == pieces && Seen("", c) == c && Held(c) == Split(c).1;
    HeardStep(AddLines(INIT, Split(c).0), Held(c), pieces, 1);
    assert pieces[2..] == more;
  }

  // ------------------------------------------------------------------ many pieces

  /** Nothing is read of pieces whose only newline is the last character. */
  lemma {:induction false} NoMore(r: Req, held: string, pieces: seq<string>)
    requires held != "" && '\n' !in held && forall i :: 0 <= i < |pieces| ==> pieces[i] != ""
    requires Joined(pieces) != "" ==> '\n' !in Joined(pieces)[..|Joined(pieces)| - 1]
    ensures Heard(r, held, pieces) == r
    decreases |pieces|
  {
    hide AddLines, Split, Ended;
    if pieces != [] {
      var p, more := pieces[0], pieces[1..];
      var all, after := Joined(pieces), Joined(more);
      var x := all[..|all| - 1];
      var seen := Seen(held, p);
      assert seen == (held + x)[..|p|];
      assert '\n' !in held + x;
      forall i | 0 <= i < |seen| ensures seen[i] != '\n' { assert seen[i] == (held + x)[i] && (held + x)[i] in held + x; }
      NoNewline(seen);
      NoLines(r);
      if after != "" {
        var y := after[..|after| - 1];
        assert x == p + y;
        forall c | c in y ensures c != '\n' { assert c in x; }
      }
      NoMore(r, seen, more);
    }
  }

  lemma {:induction false} UnseenTail(held: nat, pieces: seq<string>)
    requires held > 0 && forall i :: 0 <= i < |pieces| ==> pieces[i] != ""
    requires Joined(pieces) != "" ==> '\n' !in Joined(pieces)[..|Joined(pieces)| - 1]
    ensures Unseen(held, pieces)
    decreases |pieces|
  {
    if pieces != [] {
      var p, more := pieces[0], pieces[1..];
      var all, after := Joined(pieces), Joined(more);
      var x := all[..|all| - 1];
      if |p| > held {
        var q := p[..|p| - held];
        assert q == x[..|p| - held];
        forall c | c in q ensures c != '\n' { assert c in x; }
      }
      if after != "" {
        var y := after[..|after| - 1];
        assert x == p + y;
        forall c | c in y ensures c != '\n' { assert c in x; }
      }
      UnseenTail(|p|, more);
    }
  }

  lemma InLast(u: string, a: string, w: string) returns (k: nat)
    requires u <= w < u + (a + "\n") && '\n' !in a
    ensures k <= |a| && w == u + a[..k] && '\n' !in a[..k]
    ensures var t := u + (a + "\n"); '\n' !in t[|w|..|t| - 1]
  {
    k := |w| - |u|;
    var t := u + (a + "\n");
    assert w == t[..|w|];
    assert forall i :: 0 <= i < |a| ==> t[|u| + i] == a[i];
    assert t[|w|..|t| - 1] == a[k..];
  }

  lemma LastApart(lines: seq<string>)
    requires lines != [] && Travels(lines[|lines| - 1])
    ensures var n := |lines| - 1; Text(lines) == Text(lines[..n]) + (lines[n] + "\n") && '\n' !in lines[n]
  {
  }

  /** A part of a message that holds all its lines but the last. */
  lemma AllButEnd(m: Message, w: string)
    requires Sendable(m) && w < Text(Lines(m)) && Lines(m) != [] && Text(Lines(m)[..|Lines(m)| - 1]) <= w
    ensures var n := |Lines(m)| - 1; Split(w).0 == Lines(m)[..n] && Enough(m, n)
    ensures var t := Text(Lines(m)); '\n' !in t[|w|..|t| - 1]
  {
    hide Split, Lines, Text, Sendable, Enough;
    var ls := Lines(m);
    var n := |ls| - 1;
    var u, a := Text(ls[..n]), ls[n];
    MessageTravels(m);
    LastApart(ls);
    var k := InLast(u, a, w);
    SplitLines(ls[..n], a[..k]);
    AllIsEnough(m);
  }

  lemma AllIsEnough(m: Message)
    ensures |Lines(m)| > 0 && Enough(m, |Lines(m)| - 1)
  {
    hide Lines, Details, FileSet;
    LinesCount(m);
    assert FilesIn(m, |Lines(m)| - 1) == m.files;
  }

  /** What is held of a message after its second piece is the beginning of a line. */
  lemma HeldInLine(m: Message, c: string, d: string)
    requires Sendable(m) && c + d <= Text(Lines(m)) && c != "" && d != "" && Split(c).1 != ""
    ensures var h := Held(Seen(Split(c).1, d)); h != "" && '\n' !in h
  {
    hide Split, Lines, Text, Sendable, Tame, Ended, Ending;
    MessageTame(m);
    var t := Text(Lines(m));
    var x, tail := t[|c|..|t| - 1], Split(c).1;
    assert t[..|t| - 1] == c + "" + x;
    HeldTame(c, "", x);
    assert Held(c) == tail;
    var seen := Seen(tail, d);
    assert d == t[|c|..|c| + |d|];
    assert forall i :: 0 <= i < |d| - 1 ==> d[i] == x[i];
    assert seen == (tail + x)[..|d|];
    TamePrefix(tail + x, |d|);
    var q := HeldOf(seen);
  }

  /** However it is cut, a message of whose first two pieces all lines but the last are read is what was asked. */
  lemma SafeCut(m: Message, c: string, d: string, more: seq<string>)
    requires Sendable(m) && Joined([c, d] + more) == Text(Lines(m)) && c != "" && d != "" && forall i :: 0 <= i < |more| ==> more[i] != ""
    requires Lines(m) != [] && |Split(c).1| <= |c| && Text(Lines(m)[..|Lines(m)| - 1]) <= Looked(c, d)
    ensures Asks(Heard(INIT, "", [c, d] + more), m)
  {
    hide AddLines, Split, Lines, Text, Ended, Heard, Sendable, Unseen, Held, Enough;
    var t, n := Text(Lines(m)), |Lines(m)| - 1;
    var pieces, w := [c, d] + more, Looked(c, d);
    assert pieces[1..] == [d] + more && ([d] + more)[1..] == more;
    assert t == c + (d + Joined(more)) && Joined(pieces[1..]) == d + Joined(more);
    assert w < t && |w| <= |c| + |d|;
    AllButEnd(m, w);
    if Split(c).1 == "" {
      assert t[|c|..] == Joined(pieces[1..]);
      var rest := Joined(pieces[1..]);
      assert rest[..|rest| - 1] == t[|c|..|t| - 1];
      UnseenTail(|c|, pieces[1..]);
      CutAfterLineIff(m, pieces);
    } else {
      var seen := Seen(Split(c).1, d);
      assert c + d == t[..|c| + |d|];
      InLine(m, c, d);
      HeldInLine(m, c, d);
      HeardTwo(c, d, more);
      var rest := Joined(more);
      if rest != "" {
        var x, y := t[|w|..|t| - 1], rest[..|rest| - 1];
        assert y == x[|c| + |d| - |w|..];
        forall e | e in y ensures e != '\n' { assert e in x; }
      }
      NoMore(AddLines(INIT, Lines(m)[..n]), Held(seen), more);
      EnoughIff(m, n);
    }
  }

  // ---------------------------------------------------------------------- losses

  /**
   A message cut between two lines, the second piece being no longer than the
   first: only the lines of the first are read, and nothing tells it.
   */
  lemma SilentLoss(m: Message, k: nat)
    requires Sendable(m) && Head(m) <= k < |Lines(m)| && |Text(Lines(m)[k..])| <= |Text(Lines(m)[..k])|
    ensures Heard(INIT, "", [Text(Lines(m)[..k]), Text(Lines(m)[k..])]) ==
            Requested(m).(state := Pending, files := FileSet(FilesIn(m, k)))
  {
    hide AddLines, Split, Lines, Text, Ended, Heard, Sendable, Held, Enough, Details, FileSet, FilesIn;
    var ls := Lines(m);
    var c, d := Text(ls[..k]), Text(ls[k..]);
    MessageTravels(m);
    assert ls == ls[..k] + ls[k..];
    TextConcat(ls[..k], ls[k..]);
    TextNotEmpty(ls[k..]);
    TextNotEmpty(ls[..k]);
    assert c + "" == c;
    SplitLines(ls[..k], "");
    assert Unseen(|c|, [d]);
    TwoPiecesIff(m, c, d);
    PrefixRead(m, k);
  }

  /** The request to add a package with two files. */
  function TwoFiles(): Message {
    Message(Add, "p", 1, 1, None, None, None, ["a", "b"])
  }

  /** Cut before its second file, it becomes a request for the first alone, and no error is met. */
  lemma LostFile()
    ensures var m := TwoFiles();
            && Sendable(m) && |Lines(m)| == 7
            && var r := Heard(INIT, "", [Text(Lines(m)[..5]), Text(Lines(m)[5..])]);
               r.state != Failed && r.files == {["a"]} && !Asks(r, m) && ["b"] in FileSet(m.files)
  {
    hide Heard, Text;
    var m := TwoFiles();
    var ls := Lines(m);
    LinesCount(m);
    OneName("a");
    OneName("b");
    var a, b := ["BEGIN ADD", "PACKAGE p"], ["FILE b", "END ADD"];
    assert Line("FILE", "a") == "FILE a" && Line("FILE", "b") == "FILE b";
    assert Line("BEGIN", "ADD") == "BEGIN ADD" && Line("PACKAGE", "p") == "PACKAGE p" && Line("END", "ADD") == "END ADD";
    assert FileLines(["a", "b"]) == ["FILE a", "FILE b"] by {
      assert ["a", "b"][..1] == ["a"] && ["a"][..0] == [];
      assert FileLines(["a"]) == FileLines([]) + [Line("FILE", "a")];
    }
    assert ls[..5] == a + ls[2..5] && ls[5..] == b;
    TextConcat(a, ls[2..5]);
    TextTwo("BEGIN ADD", "PACKAGE p");
    TextTwo("FILE b", "END ADD");
    SilentLoss(m, 5);
    assert FilesIn(m, 5) == ["a"];
    assert FileSet(["a"]) == {["a"]};
    assert Components(m.files[1]) in FileSet(m.files);
  }

  /** The request to add a package with one file. */
  function OneFile(): Message {
    Message(Add, "p", 1, 1, None, None, None, ["abcdef"])
  }

  lemma OneFileText()
    ensures var m := OneFile();
            && Sendable(m) && |Lines(m)| == 6 && Head(m) == 4 && FilesIn(m, 4) == []
            && Text(Lines(m)) == Text(Lines(m)[..4]) + "FILE abcdef\nEND ADD\n"
  {
    hide Text;
    var m := OneFile();
    var ls, end := Lines(m), ["FILE abcdef", "END ADD"];
    LinesCount(m);
    assert ["abcdef"][..0] == [] && Line("FILE", "abcdef") == "FILE abcdef" && Line("END", "ADD") == "END ADD";
    assert FileLines(["abcdef"]) == ["FILE abcdef"];
    assert ls == ls[..4] + end;
    TextConcat(ls[..4], end);
    TextTwo("FILE abcdef", "END ADD");
    assert "FILE abcdef" + "\n" + ("END ADD" + "\n") == "FILE abcdef\nEND ADD\n";
  }

  lemma LastPiece(r: Req)
    requires Started(r)
    ensures Heard(r, "FILE abc", ["ef\nEND ADD\n"]) == r.(files := r.files + {["abcef"]})
  {
    hide Heard, AddLine, AddLines, Split, Text, Held, Components;
    var e := "ef\nEND ADD\n";
    HeardStep(r, "FILE abc", [e], 0);
    assert [e][0..] == [e] && [e][1..] == [];
    assert Seen("FILE abc", e) == "FILE abcef\n";
    TextOne("FILE abcef");
    SplitLines(["FILE abcef"], "");
    assert Text(["FILE abcef"]) + "" == "FILE abcef\n";
    OneLine(r, "FILE abcef");
    assert Line("FILE", "abcef") == "FILE abcef";
    ReadFile(r, "abcef");
    OneName("abcef");
    HeardNothing(AddLine(r, "FILE abcef"), Held("FILE abcef\n"));
  }

  /** Cut in three inside the line of its file, it becomes a request for a file that was never named, and no error is met. */
  lemma WrongFile()
    ensures var m := OneFile();
            && Sendable(m) && |Lines(m)| == 6
            && var c, d, e := Text(Lines(m)[..4]) + "F", "ILE abcd", "ef\nEND ADD\n";
               && Text(Lines(m)) == c + d + e
               && var r := Heard(INIT, "", [c, d] + [e]); r.state == Pending && r.scode == 0 && r.files == {["abcef"]}
  {
    hide Heard, Text, AddLines, AddLine, Split, Lines, Sendable, Details, OneFile, Ended;
    OneFileText();
    var m := OneFile();
    var ls := Lines(m);
    var c, d, e := Text(ls[..4]) + "F", "ILE abcd", "ef\nEND ADD\n";
    assert "F" + d + e == "FILE abcdef\nEND ADD\n";
    MessageTravels(m);
    SplitLines(ls[..4], "F");
    HeardTwo(c, d, [e]);
    assert Seen("F", d) == "FILE abc";
    NoNewline("FILE abc");
    var r := AddLines(INIT, ls[..4]);
    NoLines(r);
    PrefixRead(m, 4);
    PendingBefore(m, 4);
    LastPiece(r);
  }

  lemma TextTwo(a: string, b: string)
    ensures Text([a, b]) == a + "\n" + (b + "\n")
  {
    assert [a, b] == [a] + [b];
    TextConcat([a], [b]);
    TextOne(a);
    TextOne(b);
  }

  // --------------------------------------------------------------------- serving

  /** What is given to the installer. */
  datatype Job = Job(remove: bool, package: Option<string>, root: Option<string>, redpakid: Option<string>, files: set<Path>)

  /** What processing a request gives to the installer, if anything. */
  function JobOf(r: Req): Option<Job> {
    if r.kind == AddPackage || r.kind == RemovePackage
    then Some(Job(r.kind == RemovePackage, r.package, r.root, r.redpakid, r.files))
    else None
  }

  /** The outcome of what was given to the installer. */
  function Result(job: Option<Job>, installer: Job -> int): int {
    if job.Some? then installer(job.value) else 0
  }

  /** Is it a message to install or remove, and not to check? */
  predicate Acts(m: Message) {
    m.op == Add || m.op == Remove
  }

  function StatusLine(id: string): string {
    "STATUS " + id + "\n"
  }

  /** The request for a status. */
  lemma StatusHeard(id: string)
    requires Clean(id)
    ensures Heard(INIT, "", [StatusLine(id)]) == INIT.(state := Ready, kind := GetStatus, transid := Some(id))
  {
    hide AddLines, Split, Heard, Ended, Held, Text;
    var line, t := Line("STATUS", id), StatusLine(id);
    assert t == line + "\n" && Travels(line);
    TextOne(line);
    SplitLines([line], "");
    assert Text([line]) + "" == t;
    HeardStep(INIT, "", [t], 0);
    assert [t][0..] == [t] && [t][1..] == [] && Seen("", t) == t;
    OneLine(INIT, line);
    OwnKey("STATUS", id);
    forall key: string | key != "" && key[0] != 'S' ensures !HasKey(line, key) {
      assert line[0] == 'S';
      OtherKey(line, key, 0);
    }
    StatusRead(line, id);
    HeardNothing(AddLine(INIT, line), Held(t));
  }

  lemma StatusRead(line: string, id: string)
    requires HasKey(line, "STATUS") && ArgText(line, "STATUS") == id
    requires forall key: string {:trigger HasKey(line, key)} :: key != "" && key[0] != 'S' ==> !HasKey(line, key)
    ensures AddLine(INIT, line) == INIT.(state := Ready, kind := GetStatus, transid := Some(id))
  {
    hide HasKey, ArgText, StrToL, OperationKind, Components;
  }

  lemma KindsApart(m: Message)
    ensures KindOf(m.op) == AddPackage <==> m.op == Add
    ensures KindOf(m.op) == RemovePackage <==> m.op == Remove
    ensures KindOf(m.op) != GetStatus && KindOf(m.op) != Unset
  {
  }

  /**
   Serves a client: what was received is processed unless an error was met. When
   it asks what a message says, the installer gets exactly what the message says
   and the outcome is charged to its transaction; when it asks for a status, the
   report of that transaction is the reply.
   */
  method Serve(buffer: array<char>, pieces: seq<string>, broken: bool, table: Table, installer: Job -> int, now: int, later: int)
    returns (rc: int, req: Receiver, job: Option<Job>, reply: Option<Status>)
    requires Receivable("", pieces, buffer.Length) && Accurate(table.all, table.log)
    modifies buffer, table
    ensures fresh(req) && Accurate(table.all, table.log)
    ensures var heard := Received(INIT, pieces, broken);
            if heard.state == Failed then
              rc < 0 && req.View() == heard && job == None && reply == None && table.all == old(table.all) && table.log == old(table.log)
            else
              && job == JobOf(heard)
              && (table.all, table.log) == Processed(old(table.all), old(table.log), heard, Result(job, installer), now, later)
    ensures forall m: Message :: !broken && Asks(Heard(INIT, "", pieces), m) ==>
              && job == (if Acts(m) then Some(Job(m.op == Remove, Some(m.package), m.root, m.redpakid, FileSet(m.files))) else None)
              && reply == None
              && (table.all, table.log) ==
                 if Acts(m) && m.transid.Some?
                 then Done(old(table.all), old(table.log), Outcome(m.transid.value, m.count, installer(job.value) >= 0, now, later))
                 else (old(table.all), old(table.log))
    ensures forall id :: !broken && Clean(id) && pieces == [StatusLine(id)] ==>
              && job == None
              && reply == Report(old(table.all), old(table.log), id, now).2
              && (table.all, table.log) == Done(old(table.all), old(table.log), Ask(id, now))
  {
    hide Heard, Consistent, Accurate, Record, Report, StatusLine, FileSet, Clean;
    InitConsistent();
    req := new Receiver();
    rc := Receive(buffer, pieces, broken, req);
    job, reply := None, None;
    ghost var heard := req.View();
    if rc >= 0 {
      if req.kind == AddPackage || req.kind == RemovePackage {
        job := Some(Job(req.kind == RemovePackage, req.package, req.root, req.redpakid, req.files));
      }
      rc, reply := table.Process(req, Result(job, installer), now, later);
    }
    forall m: Message | Asks(heard, m)
      ensures heard.state != Failed && heard == Requested(m).(state := heard.state)
    {
      KindsApart(m);
      if heard.state == Failed { FailedHasCode(heard); }
    }
    forall id | !broken && Clean(id) && pieces == [StatusLine(id)]
      ensures heard == INIT.(state := Ready, kind := GetStatus, transid := Some(id))
    {
      StatusHeard(id);
    }
    forall m: Message ensures KindOf(m.op) == AddPackage <==> m.op == Add {
      KindsApart(m);
    }
  }

  lemma InitConsistent()
    ensures Consistent(INIT)
  {
  }
}
