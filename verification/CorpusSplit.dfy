/**
 The splitter of src/units/unit-process.c: it scans a null terminated text and
 changes it in place, ending each block with a null.
 */
module CorpusSplit {
  import opened CStrings
  import opened Corpus
  import CorpusText
  import opened Errors
  import opened TextLines
  import opened Options

  /** The text from a position to the null that ends it. */
  ghost predicate Terminated(a: array<char>, p: nat, top: nat)
    reads a
  {
    p <= top < a.Length && EndsAt(a, p, top)
  }

  ghost predicate EndsAt(a: array<char>, p: nat, top: nat)
    reads a
    requires p <= top < a.Length
  {
    a[top] == NUL && NUL !in a[p..top]
  }

  lemma Later(a: array<char>, p: nat, q: nat, top: nat)
    requires Terminated(a, p, top) && p <= q <= top
    ensures Terminated(a, q, top)
  {
    assert a[q..top] == a[p..top][q - p..];
  }

  method SkipBlanksAt(a: array<char>, p: nat, top: nat) returns (t: nat)
    requires Terminated(a, p, top)
    ensures p <= t <= top && a[t..top] == SkipBlanks(a[p..top])
  {
    hide SkipBlanks, EndsAt;
    t := p;
    ghost var text := a[p..top];
    while IsBlank(a[t])
      invariant p <= t <= top && SkipBlanks(a[t..top]) == SkipBlanks(text) && Terminated(a, t, top)
      decreases top - t
    {
      OneBlankLess(a, t, top);
      t := t + 1;
    }
    NoBlankLeft(a, t, top);
  }

  lemma OneBlankLess(a: array<char>, t: nat, top: nat)
    requires Terminated(a, t, top) && IsBlank(a[t])
    ensures t < top && SkipBlanks(a[t..top]) == SkipBlanks(a[t + 1..top]) && Terminated(a, t + 1, top)
  {
    hide SkipBlanks, EndsAt;
    Ends(a, t, top);
    SkipStep(a[t..top]);
    Later(a, t, t + 1, top);
  }

  lemma NoBlankLeft(a: array<char>, t: nat, top: nat)
    requires Terminated(a, t, top) && !IsBlank(a[t])
    ensures SkipBlanks(a[t..top]) == a[t..top]
  {
    hide SkipBlanks, EndsAt;
    Ends(a, t, top);
    SkipStep(a[t..top]);
  }

  lemma Ends(a: array<char>, p: nat, top: nat)
    requires Terminated(a, p, top)
    ensures a[p] == NUL <==> p == top
    ensures p < top ==> a[p..top] != "" && a[p..top][0] == a[p] && a[p..top][1..] == a[p + 1..top]
    ensures p == top ==> a[p..top] == ""
  {
    if p < top { assert a[p] in a[p..top]; }
  }

  lemma PatternTail(pattern: string, k: nat)
    requires k < |pattern|
    ensures pattern[k..] != "" && pattern[k..][0] == pattern[k] && pattern[k..][1..] == pattern[k + 1..]
  {
  }

  /** One character of a pattern. */
  method MatchChar(c: char, a: array<char>, t: nat, top: nat, ghost pattern: string) returns (ok: bool, next: nat)
    requires Terminated(a, t, top) && pattern != "" && pattern[0] == c && c != NUL
    ensures t <= next <= top
    ensures !ok ==> Match(pattern, a[t..top]) == None
    ensures ok ==> Match(pattern, a[t..top]) == Match(pattern[1..], a[next..top])
  {
    hide Match, SkipBlanks;
    MatchStep(pattern, a[t..top]);
    Ends(a, t, top);
    ok, next := true, t;
    if c == '\n' {
      next := SkipBlanksAt(a, t, top);
      Later(a, t, next, top);
      Ends(a, next, top);
      if a[next] != NUL {
        if a[next] != c {
          return false, t;
        }
        next := next + 1;
      }
    } else if c == ' ' {
      if !IsBlank(a[t]) {
        return false, t;
      }
      next := SkipBlanksAt(a, t, top);
    } else {
      if a[t] != c {
        return false, t;
      }
      next := t + 1;
    }
  }

  /** Does the text begin with the pattern, and where does the pattern end? */
  method MatchesAt(pattern: string, a: array<char>, p: nat, top: nat) returns (ok: bool, after: nat)
    requires Terminated(a, p, top) && NUL !in pattern
    ensures p <= after <= top
    ensures Match(pattern, a[p..top]) == if ok then Some(a[after..top]) else None
  {
    hide Match, EndsAt;
    ok, after := true, p;
    var k := 0;
    assert pattern[0..] == pattern;
    while k < |pattern|
      invariant 0 <= k <= |pattern| && p <= after <= top && Terminated(a, after, top) && ok
      invariant Match(pattern, a[p..top]) == Match(pattern[k..], a[after..top])
    {
      PatternTail(pattern, k);
      ghost var was := after;
      ok, after := MatchChar(pattern[k], a, after, top, pattern[k..]);
      if !ok {
        return;
      }
      Later(a, was, after, top);
      k := k + 1;
    }
    assert pattern[k..] == "";
    MatchNothing(a[after..top]);
  }

  /** The next line, if there is one. */
  method NextLineAt(a: array<char>, p: nat, top: nat) returns (found: bool, next: nat)
    requires Terminated(a, p, top)
    ensures p <= next <= top && (found ==> p < next)
    ensures NextLine(a[p..top]) == if found then Some(a[next..top]) else None
  {
    var t := p;
    while a[t] != NUL && a[t] != '\n'
      invariant p <= t <= top && LineLength(a[p..top]) == t - p + LineLength(a[t..top])
      decreases top - t
    {
      Later(a, p, t, top);
      Ends(a, t, top);
      t := t + 1;
    }
    Later(a, p, t, top);
    Ends(a, t, top);
    found := a[t] == '\n';
    next := if found then t + 1 else t;
    if found { assert a[p..top][t - p + 1..] == a[t + 1..top]; }
  }

  /** The first line that begins with the pattern. */
  method OffsetAt(a: array<char>, p: nat, top: nat, pattern: string) returns (found: bool, at: nat, args: nat)
    requires Terminated(a, p, top) && NUL !in pattern
    ensures p <= at <= args <= top
    ensures Offset(a[p..top], pattern) == if found then Some(a[at..top]) else None
    ensures found ==> Match(pattern, a[at..top]) == Some(a[args..top])
  {
    hide Match, Offset, NextLine, EndsAt;
    at := p;
    while true
      invariant p <= at <= top && Terminated(a, at, top)
      invariant Offset(a[p..top], pattern) == Offset(a[at..top], pattern)
      decreases top - at
    {
      OffsetStep(a[at..top], pattern);
      found, args := MatchesAt(pattern, a, at, top);
      if found {
        return;
      }
      var more, next := NextLineAt(a, at, top);
      if !more {
        return;
      }
      Later(a, at, next, top);
      at := next;
    }
  }

  /** The word at a position. */
  method WordAt(a: array<char>, p: nat, top: nat) returns (w: string)
    requires Terminated(a, p, top)
    ensures w == a[p..top][..WordLength(a[p..top])]
  {
    var t := p;
    while a[t] != NUL && !IsBlank(a[t]) && a[t] != '\n'
      invariant p <= t <= top && WordLength(a[p..top]) == t - p + WordLength(a[t..top])
      decreases top - t
    {
      Later(a, p, t, top);
      Ends(a, t, top);
      t := t + 1;
    }
    Later(a, p, t, top);
    Ends(a, t, top);
    w := a[p..t];
    assert a[p..top][..t - p] == w;
  }

  method WordAfterAt(a: array<char>, p: nat, top: nat, pattern: string) returns (w: Option<string>)
    requires Terminated(a, p, top) && NUL !in pattern
    ensures w == WordAfter(a[p..top], pattern)
  {
    hide Match, Offset, EndsAt, WordLength;
    var found, at, args := OffsetAt(a, p, top, pattern);
    if !found {
      return None;
    }
    Later(a, p, args, top);
    var word := WordAt(a, args, top);
    w := Some(word);
  }

  /** Describes the unit of a block. */
  method ProcessOneUnit(a: array<char>, spec: nat, end: nat) returns (u: Unit)
    requires Terminated(a, spec, end)
    ensures u == Described(a[spec..end])
  {
    hide Match, Offset, EndsAt, WordAfter;
    var isuser, at, args := OffsetAt(a, spec, end, USER);
    var issystem;
    issystem, at, args := OffsetAt(a, spec, end, SYSTEM);
    var socket := WordAfterAt(a, spec, end, SOCKET);
    var service := WordAfterAt(a, spec, end, SERVICE);
    var wanted := WordAfterAt(a, spec, end, WANTED);
    var scope := if isuser && !issystem then User else if issystem && !isuser then System else AnyScope;
    if socket.Some? && service == None {
      u := Unit(scope, Socket, socket, wanted);
    } else if service.Some? && socket == None {
      u := Unit(scope, Service, service, wanted);
    } else {
      u := Unit(scope, AnyKind, None, wanted);
    }
  }

  // ------------------------------------------------------------------------- packing

  /** Moves characters towards the head of the buffer. */
  method MoveDown(a: array<char>, begin: nat, end: nat, write: nat)
    requires write <= begin <= end <= a.Length
    modifies a
    ensures a[..write + end - begin] == old(a[..write]) + old(a[begin..end])
    ensures a[end..] == old(a[end..])
  {
    var n: nat := 0;
    while begin + n < end
      invariant begin + n <= end
      invariant a[..write + n] == old(a[..write]) + old(a[begin..begin + n])
      invariant a[begin + n..] == old(a[begin + n..])
    {
      ghost var rest := a[begin + n..];
      assert rest[0] == old(a[begin + n..])[0] == old(a[begin + n]);
      a[write + n] := a[begin + n];
      assert a[..write + n + 1] == a[..write + n] + [a[write + n]];
      assert a[begin + n + 1..] == rest[1..];
      n := n + 1;
    }
  }

  lemma LineOf(a: array<char>, p: nat, eol: nat, top: nat)
    requires Terminated(a, p, top) && p <= eol <= top && eol - p == LineLength(a[p..top])
    ensures a[p..top][..eol - p] == a[p..eol] && '\n' !in a[p..eol]
    ensures a[eol] == if eol < top then '\n' else NUL
    ensures eol < top ==> a[p..top][eol - p + 1..] == a[eol + 1..top] && a[p..top] == a[p..eol] + "\n" + a[eol + 1..top]
    ensures eol == top ==> a[p..top] == a[p..eol]
  {
  }

  /** Scans a line: where it ends, whether something in it counts and where, whether it continues. */
  method ScanLine(a: array<char>, p: nat, top: nat) returns (eol: nat, emit: bool, start: nat, cont: bool)
    requires Terminated(a, p, top)
    ensures p <= eol <= top && eol - p == LineLength(a[p..top])
    ensures var line, ended := a[p..eol], eol < top;
            && p <= start <= eol && (emit <==> FirstCounting(line, ended, 0) < |line|)
            && (emit ==> start - p == FirstCounting(line, ended, 0))
            && cont == Continues(line, ended)
  {
    hide LineLength, EndsAt, FirstCounting;
    ghost var end := p + LineLength(a[p..top]);
    ghost var line, ended := a[p..end], end < top;
    LineOf(a, p, end, top);
    eol, emit, start, cont := p, false, p, false;
    assert forall i :: 0 <= i < |line| ==> a[p + i] == line[i];
    while a[eol] != NUL && a[eol] != '\n'
      invariant p <= eol <= end && p <= start <= eol
      invariant if emit then FirstCounting(line, ended, 0) == start - p < |line|
                else FirstCounting(line, ended, 0) == FirstCounting(line, ended, eol - p)
      invariant cont == (eol == end && Continues(line, ended))
      decreases end - eol
    {
      Inner(a, p, eol, end, top);
      CountingStep(line, ended, eol - p);
      if !IsBlank(a[eol]) {
        if a[eol] == '\\' && a[eol + 1] == '\n' {
          cont := true;
        } else {
          if !emit {
            start := eol;
          }
          emit := true;
        }
      }
      eol := eol + 1;
    }
    Outer(a, p, eol, end, top);
    CountingStep(line, ended, |line|);
  }

  lemma CountingStep(line: string, ended: bool, i: nat)
    requires i <= |line|
    ensures FirstCounting(line, ended, i) == if i == |line| || Counts(line, ended, i) then i else FirstCounting(line, ended, i + 1)
  {
  }

  /** A position before the end of the line. */
  lemma Inner(a: array<char>, p: nat, q: nat, end: nat, top: nat)
    requires Terminated(a, p, top) && p <= q <= end <= top && end - p == LineLength(a[p..top])
    requires a[q] != NUL && a[q] != '\n'
    ensures q < end
    ensures a[q + 1] == '\n' <==> q + 1 == end && end < top
  {
    LineOf(a, p, end, top);
    if q + 1 < end {
      assert a[p..end][q + 1 - p] == a[q + 1];
    }
  }

  lemma Outer(a: array<char>, p: nat, q: nat, end: nat, top: nat)
    requires Terminated(a, p, top) && p <= q <= end <= top && end - p == LineLength(a[p..top])
    requires a[q] == NUL || a[q] == '\n'
    ensures q == end
  {
    LineOf(a, p, end, top);
    forall i | p <= i < end ensures a[i] != NUL && a[i] != '\n' {
      assert a[i] == a[p..end][i - p] == a[p..top][i - p];
    }
  }

  lemma InLine(a: array<char>, p: nat, eol: nat, top: nat)
    requires Terminated(a, p, top) && p <= eol <= top && eol - p == LineLength(a[p..top])
    ensures forall i :: p <= i < eol ==> a[i] != NUL && a[i] != '\n'
    ensures a[eol] == if eol < top then '\n' else NUL
  {
    LineOf(a, p, eol, top);
    forall i | p <= i < eol ensures a[i] != NUL && a[i] != '\n' {
      assert a[i] == a[p..eol][i - p] == a[p..top][i - p];
    }
  }

  lemma KeptLine(a: array<char>, p: nat, begin: nat, eol: nat, from: nat)
    requires p <= begin <= eol <= from <= eol + 1 && from <= a.Length && (from == eol + 1 ==> a[eol] == '\n')
    ensures a[begin..from] == a[p..eol][begin - p..] + if eol < from then "\n" else ""
  {
  }

  /** Is what is kept the directive for an empty line? */
  method IsNewlineDirective(a: array<char>, begin: nat, eol: nat, from: nat) returns (yes: bool)
    requires begin < eol < a.Length && eol <= from <= eol + 1 && from <= a.Length
    requires forall i :: begin <= i < eol ==> a[i] != NUL && a[i] != '\n'
    requires a[eol] == if eol < from then '\n' else NUL
    ensures var kept := a[begin..from]; yes <==> |kept| >= 4 && kept[1..4] == "nl\n"
  {
    yes := a[begin + 1] == 'n' && a[begin + 2] == 'l' && a[begin + 3] == '\n';
    ghost var kept := a[begin..from];
    assert forall i :: 0 <= i < |kept| ==> kept[i] == a[begin + i];
    Starts(kept);
  }

  lemma Starts(kept: string)
    ensures |kept| >= 4 && kept[1..4] == "nl\n" <==> |kept| >= 4 && kept[1] == 'n' && kept[2] == 'l' && kept[3] == '\n'
  {
    if |kept| >= 4 {
      assert kept[1..4] == [kept[1], kept[2], kept[3]];
    }
  }

  /** Packs one line: what is left of it is written before what follows it. */
  method PackLineAt(a: array<char>, read: nat, eol: nat, top: nat, write: nat, emit: bool, start: nat, cont: bool, nextcont: bool, purge: char)
    returns (next: nat)
    requires Terminated(a, read, top) && write <= read <= eol <= top && eol - read == LineLength(a[read..top])
    requires read < top && purge != '\n'
    requires var line, ended := a[read..eol], eol < top;
             && read <= start <= eol && (emit <==> FirstCounting(line, ended, 0) < |line|)
             && (emit ==> start - read == FirstCounting(line, ended, 0)) && nextcont == Continues(line, ended)
    modifies a
    ensures write <= next <= (if eol < top then eol + 1 else eol)
    ensures a[..next] == old(a[..write]) + PackLine(old(a[read..eol]), eol < top, cont, purge)
    ensures var from := if eol < top then eol + 1 else eol; a[from..] == old(a[from..])
  {
    hide LineLength, EndsAt, FirstCounting, Continues, KeptText, PackLine;
    var from := if eol < top then eol + 1 else eol;
    InLine(a, read, eol, top);
    next := write;
    ghost var line := a[read..eol];
    PackLineIs(line, eol < top, cont, purge);
    if emit || (cont && !nextcont) {
      var begin: nat := if !cont && emit then start else read;
      KeptLine(a, read, begin, eol, from);
      next := WriteKept(a, begin, eol, from, write, purge);
    } else {
      assert a[..write] + "" == a[..write];
    }
  }

  lemma PackLineIs(line: string, ended: bool, cont: bool, purge: char)
    ensures var k := FirstCounting(line, ended, 0);
            var from := if !cont && k < |line| then k else 0;
            PackLine(line, ended, cont, purge) ==
            if k < |line| || (cont && !Continues(line, ended)) then KeptText(line[from..] + (if ended then "\n" else ""), purge) else ""
  {
    hide FirstCounting, KeptText;
    assert line[0..] == line;
  }

  method WriteKept(a: array<char>, begin: nat, eol: nat, from: nat, write: nat, purge: char) returns (next: nat)
    requires write <= begin <= eol < a.Length && eol <= from <= eol + 1 && begin < from
    requires forall i :: begin <= i < eol ==> a[i] != NUL && a[i] != '\n'
    requires a[eol] == (if eol < from then '\n' else NUL) && purge != '\n'
    modifies a
    ensures write <= next <= from && a[from..] == old(a[from..])
    ensures a[..next] == old(a[..write]) + KeptText(old(a[begin..from]), purge)
  {
    next := write;
    ghost var kept := a[begin..from];
    assert kept[0] == a[begin];
    if purge != NUL && a[begin] == purge {
      var empty := IsNewlineDirective(a, begin, eol, from);
      if empty {
        a[write] := '\n';
        next := write + 1;
        assert a[..next] == a[..write] + "\n";
      } else {
        assert a[..write] + "" == a[..write];
      }
    } else {
      MoveDown(a, begin, from, write);
      next := write + from - begin;
    }
  }

  lemma PackStep(t: string, cont: bool, purge: char)
    requires t != ""
    ensures var n := LineLength(t);
            var ended := n < |t|;
            PackText(t, cont, purge) == PackLine(t[..n], ended, cont, purge) +
            (if ended then PackText(t[n + 1..], Continues(t[..n], ended), purge) else "")
  {
  }

  lemma PackNothing(cont: bool, purge: char)
    ensures PackText("", cont, purge) == ""
  {
  }

  /** A terminated text, as the end of the buffer. */
  ghost predicate TailEnds(tail: seq<char>, n: nat) {
    n < |tail| && tail[n] == NUL && NUL !in tail[..n]
  }

  lemma TailOf(a: array<char>, p: nat, top: nat)
    requires p <= top < a.Length
    ensures Terminated(a, p, top) <==> TailEnds(a[p..], top - p)
    ensures a[p..][..top - p] == a[p..top]
  {
    assert a[p..][top - p] == a[top];
  }

  /** One turn of the packing: a line is read, what is left of it is written. */
  method PackTurn(a: array<char>, read: nat, top: nat, write: nat, cont: bool, purge: char)
    returns (from: nat, next: nat, nextcont: bool, ghost piece: string)
    requires Terminated(a, read, top) && write <= read < top && purge != '\n'
    modifies a
    ensures read < from <= top && write <= next <= from
    ensures Terminated(a, from, top) && a[from..] == old(a[from..])
    ensures a[..next] == old(a[..write]) + piece
    ensures PackText(old(a[read..top]), cont, purge) == piece + PackText(a[from..top], nextcont, purge)
  {
    hide LineLength, EndsAt, FirstCounting, Continues, PackText, PackLine;
    Ends(a, read, top);
    PackStep(a[read..top], cont, purge);
    var eol, emit, start;
    eol, emit, start, nextcont := ScanLine(a, read, top);
    LineOf(a, read, eol, top);
    piece := PackLine(a[read..eol], eol < top, cont, purge);
    from := if eol < top then eol + 1 else eol;
    Later(a, read, from, top);
    TailOf(a, from, top);
    ghost var rest := a[from..top];
    Ends(a, from, top);
    PackNothing(nextcont, purge);
    next := PackLineAt(a, read, eol, top, write, emit, start, cont, nextcont, purge);
    TailOf(a, from, top);
    assert a[from..top] == rest;
  }

  /** Packs a text in place: writing never overtakes reading. */
  method Pack(a: array<char>, text: nat, top: nat, purge: char) returns (size: nat)
    requires Terminated(a, text, top) && purge != '\n'
    modifies a
    ensures text + size <= top && a[..text] == old(a[..text]) && a[top + 1..] == old(a[top + 1..])
    ensures a[text..text + size] == PackText(old(a[text..top]), false, purge) && a[text + size] == NUL
  {
    hide EndsAt, PackText;
    ghost var head, whole, out := a[..text], a[text..top], "";
    ghost var behind := a[top + 1..];
    var read: nat, write: nat, cont := text, text, false;
    assert head + out == head && out + PackText(whole, false, purge) == PackText(whole, false, purge);
    Ends(a, read, top);
    while a[read] != NUL
      invariant text <= write <= read <= top && Terminated(a, read, top)
      invariant a[..write] == head + out && a[top + 1..] == behind
      invariant out + PackText(a[read..top], cont, purge) == PackText(whole, false, purge)
      decreases top - read
    {
      Ends(a, read, top);
      ghost var piece;
      ghost var was := PackText(a[read..top], cont, purge);
      var from: nat;
      from, write, cont, piece := PackTurn(a, read, top, write, cont, purge);
      EndKept(a[..], from, top, behind);
      assert head + out + piece == head + (out + piece);
      assert out + (piece + PackText(a[from..top], cont, purge)) == out + piece + PackText(a[from..top], cont, purge);
      out := out + piece;
      read := from;
    }
    Ends(a, read, top);
    PackNothing(cont, purge);
    assert out + "" == out;
    size := write - text;
    ghost var done := a[..write];
    assert done[text..] == out && done[..text] == head;
    a[write] := NUL;
    assert a[..write] == done;
    assert a[text..write] == a[..write][text..] && a[..text] == a[..write][..text];
  }

  lemma EndKept(b: seq<char>, from: nat, top: nat, behind: seq<char>)
    requires from <= top < |b| && b[from..][top + 1 - from..] == behind
    ensures b[top + 1..] == behind
  {
  }

  // ----------------------------------------------------------------------- splitting

  /** A unit found, and its packed content. */
  datatype Found = Found(unit: Unit, content: string)

  function FoundIn(body: string): Found {
    Found(Described(body), PackText(body, false, '%'))
  }

  function AllFound(bodies: seq<string>): (r: seq<Found>)
    ensures |r| == |bodies|
  {
    seq(|bodies|, i requires 0 <= i < |bodies| => FoundIn(bodies[i]))
  }

  lemma Cut(a: array<char>, p: nat, end: nat, top: nat)
    requires p <= end <= top < a.Length
    ensures |a[end..top]| <= |a[p..top]| && Before(a[p..top], a[end..top]) == a[p..end]
  {
  }

  lemma Shorter(a: array<char>, p: nat, end: nat, top: nat)
    requires Terminated(a, p, top) && p <= end <= top
    ensures NUL !in a[p..end]
  {
    assert a[p..end] == a[p..top][..end - p];
  }

  /** The names of both markers of a block; the unit it describes when they agree. */
  method TakeBlock(a: array<char>, beg: nat, end: nat, aftend: nat, top: nat) returns (err: bool, next: nat, found: Option<Found>)
    requires Terminated(a, beg, top) && beg < end < aftend <= top
    modifies a
    ensures aftend <= next <= top && Terminated(a, next, top)
    ensures a[next..top] == old(a[next..top])
    ensures var inner, after := Match(NAME, old(a[beg..end])), Match(NAME, old(a[aftend..top]));
            if inner == None || after == None then err && found == None
            else !err && after.value == a[next..top] && found == Some(FoundIn(inner.value))
  {
    hide Match, EndsAt, Described, PackText;
    Shorter(a, beg, end, top);
    Later(a, beg, aftend, top);
    TailOf(a, aftend, top);
    ghost var tail, text := a[aftend..], a[beg..end];
    a[end] := NUL;
    assert a[aftend..] == tail && a[beg..end] == text;
    TailOf(a, aftend, top);
    Ended(a, beg, end);
    var ok, from := MatchesAt(NAME, a, beg, end);
    next, err, found := aftend, true, None;
    if ok {
      ok, next := MatchesAt(NAME, a, aftend, top);
      if !ok {
        next := aftend;
      } else {
        err := false;
        Later(a, aftend, next, top);
        Later(a, beg, from, end);
        TailOf(a, next, top);
        ghost var rest := a[next..];
        ghost var body := a[from..end];
        assert a[next..top] == tail[next - aftend..][..top - next];
        var unit := ProcessOneUnit(a, from, end);
        var size := Pack(a, from, end, '%');
        found := Some(Found(unit, a[from..from + size]));
        Behind(a[..], end, next, rest);
        TailOf(a, next, top);
      }
    }
    assert a[next..top] == old(a[next..top]);
  }

  lemma Ended(a: array<char>, p: nat, end: nat)
    requires p <= end < a.Length && a[end] == NUL && NUL !in a[p..end]
    ensures Terminated(a, p, end)
  {
  }

  lemma Behind(b: seq<char>, end: nat, next: nat, rest: seq<char>)
    requires end < next <= |b| && b[end + 1..][next - end - 1..] == rest
    ensures b[next..] == rest
  {
  }

  /** What one turn of the splitter tells of the text it started with. */
  ghost predicate TurnRight(t: string, err: bool, going: bool, rest: string, found: Option<Found>) {
    && (err ==> !WellFormed(t, false) && found == None)
    && (!err && !going ==> WellFormed(t, false) && Blocks(t, None) == [] && found == None)
    && (!err && going ==> exists body :: Turned(t, rest, body) && found == Some(FoundIn(body)))
  }

  lemma MarkersTurn(t: string, b: Option<string>, e: Option<string>)
    requires b == Offset(t, BEGIN) && e == Offset(t, END)
    ensures b == None && e == None ==> WellFormed(t, false) && Blocks(t, None) == []
    ensures b == None && e.Some? ==> !WellFormed(t, false)
    ensures b.Some? && e == None ==> !WellFormed(t, false)
    ensures b.Some? && e.Some? && |e.value| > |b.value| ==> !WellFormed(t, false)
    ensures b.Some? && e.Some? && |e.value| <= |b.value| ==> Earlier(b, e) && Offset(b.value, END) == e
    ensures Earlier(b, e) ==> WellFormed(t, false) == WellFormed(b.value, false) && Blocks(t, None) == Blocks(b.value, None)
  {
    hide Offset, WellFormed, Blocks, Match;
    Outside(t);
    if b.Some? && e == None {
      Unclosed(b.value);
    }
  }

  /** A block without end. */
  lemma Unclosed(b: string)
    requires Matches(BEGIN, b) && Offset(b, END) == None
    ensures !WellFormed(b, false)
  {
    hide Offset, WellFormed, After, Match, NextLine;
    FormStep(b, false);
    FormStep(b, true);
    OffsetStep(b, END);
    if NextLine(b).Some? { Inside(NextLine(b).value, ""); }
  }

  /** From a begin marker to the end of its block. */
  lemma BlockIs(b: string, e: string, beg: string, again: Option<string>)
    requires Matches(BEGIN, b) && Offset(b, END) == Some(e) && beg == Match(BEGIN, b).value && again == Offset(beg, BEGIN)
    ensures |e| < |beg|
    ensures Earlier(again, Some(e)) ==> !WellFormed(b, false)
    ensures !Earlier(again, Some(e)) && (Match(NAME, Before(beg, e)) == None || Match(NAME, Match(END, e).value) == None) ==> !WellFormed(b, false)
    ensures !Earlier(again, Some(e)) && Match(NAME, Before(beg, e)).Some? && Match(NAME, Match(END, e).value).Some? ==>
              Turned(b, Match(NAME, Match(END, e).value).value, Match(NAME, Before(beg, e)).value)
  {
    hide Offset, WellFormed, Blocks, Match, NextLine, Before;
    BlockTurn(b, e);
    BlockHasEnd(b);
    BlockName(b, e);
  }

  lemma Earliness(a: array<char>, p: nat, q: nat, top: nat)
    requires p <= top && q <= top < a.Length
    ensures Earlier(Some(a[p..top]), Some(a[q..top])) <==> p < q
    ensures |a[p..top]| == top - p
  {
  }

  /** One turn of the splitter. */
  method Turn(a: array<char>, p: nat, top: nat) returns (err: bool, going: bool, next: nat, found: Option<Found>)
    requires Terminated(a, p, top)
    modifies a
    ensures p <= next <= top && (going ==> p < next && Terminated(a, next, top))
    ensures TurnRight(old(a[p..top]), err, going, a[next..top], found)
  {
    hide Offset, WellFormed, Blocks, Match, EndsAt, Turned, Before, FoundIn;
    ghost var t := a[p..top];
    var isbeg, befbeg, beg := OffsetAt(a, p, top, BEGIN);
    var isend, end, aftend := OffsetAt(a, p, top, END);
    MarkersTurn(t, Offset(t, BEGIN), Offset(t, END));
    Earliness(a, befbeg, end, top);
    Earliness(a, end, befbeg, top);
    err, going, next, found := false, false, p, None;
    if !isbeg {
      err := isend;
      return;
    }
    if !isend || end < befbeg {
      err := true;
      return;
    }
    ghost var b, e, head := a[befbeg..top], a[end..top], a[beg..top];
    Later(a, p, beg, top);
    var twice, at, args := OffsetAt(a, beg, top, BEGIN);
    BlockIs(b, e, head, Offset(head, BEGIN));
    Earliness(a, at, end, top);
    if twice && at < end {
      err := true;
      return;
    }
    assert beg < end;
    Cut(a, beg, end, top);
    MarkerMoves(e, a[aftend..top]);
    going := true;
    err, next, found := TakeBlock(a, beg, end, aftend, top);
    if !err {
      SameTurn(t, b, a[next..top], Match(NAME, Before(head, e)).value);
    }
  }

  lemma MarkerMoves(e: string, rest: string)
    requires Match(END, e) == Some(rest)
    ensures |rest| < |e|
  {
    MatchFirst(END, e);
    MatchStep(END, e);
  }

  lemma SameTurn(t: string, b: string, rest: string, body: string)
    requires WellFormed(t, false) == WellFormed(b, false) && Blocks(t, None) == Blocks(b, None) && Turned(b, rest, body)
    ensures Turned(t, rest, body)
  {
  }

  /**
   Splits a text into its units, in order. It succeeds exactly when the markers
   alternate and all name a systemd unit.
   */
  method Split(a: array<char>, top: nat) returns (rc: int, units: seq<Found>)
    requires Terminated(a, 0, top)
    modifies a
    ensures rc >= 0 <==> WellFormed(old(a[0..top]), false)
    ensures rc >= 0 ==> rc == |units| && units == AllFound(Blocks(old(a[0..top]), None))
    ensures rc < 0 ==> rc == -EINVAL && units == []
  {
    hide WellFormed, Blocks, EndsAt, FoundIn;
    ghost var text, bodies := a[0..top], [];
    var corpus: nat, going := 0, true;
    rc, units := 0, [];
    assert [] + Blocks(text, None) == Blocks(text, None);
    while going
      invariant corpus <= top && (going ==> Terminated(a, corpus, top))
      invariant rc == 0 || rc == -EINVAL
      invariant rc < 0 ==> !WellFormed(text, false)
      invariant rc == 0 ==> units == AllFound(bodies)
      invariant rc == 0 && going ==> WellFormed(text, false) == WellFormed(a[corpus..top], false)
      invariant rc == 0 && going ==> Blocks(text, None) == bodies + Blocks(a[corpus..top], None)
      invariant rc == 0 && !going ==> WellFormed(text, false) && Blocks(text, None) == bodies
      decreases going, top - corpus
    {
      ghost var t := a[corpus..top];
      var err, found;
      err, going, corpus, found := Turn(a, corpus, top);
      if err {
        rc := -EINVAL;
      } else if found.Some? {
        units := units + [found.value];
        if rc == 0 {
          ghost var body :| Turned(t, a[corpus..top], body) && found == Some(FoundIn(body));
          OneMoreUnit(bodies, body, Blocks(a[corpus..top], None));
          bodies := bodies + [body];
        }
      } else {
        assert bodies + [] == bodies;
      }
    }
    if rc >= 0 {
      rc := |units|;
    } else {
      units := [];
    }
  }

  lemma OneMoreUnit(bodies: seq<string>, body: string, rest: seq<string>)
    ensures AllFound(bodies + [body]) == AllFound(bodies) + [FoundIn(body)]
    ensures bodies + ([body] + rest) == bodies + [body] + rest
  {
    hide FoundIn;
  }

  /**
   Splitting units written out, with text without markers between them, gives
   one descriptor per unit, in order, that says what the lines of its block say.
   */
  method SplitUnits(a: array<char>, top: nat, ghost gaps: seq<string>, ghost blocks: seq<seq<CorpusText.Line>>, ghost last: string)
    returns (rc: int, units: seq<Found>)
    requires Terminated(a, 0, top) && |gaps| == |blocks|
    requires MarkerFree(last) && (forall i :: 0 <= i < |gaps| ==> MarkerFree(gaps[i]))
    requires forall i, l :: 0 <= i < |blocks| && l in blocks[i] ==> CorpusText.Placeable(l)
    requires a[0..top] == CorpusText.Assembled(gaps, CorpusText.Bodies(blocks), last)
    modifies a
    ensures rc == |units| == |blocks|
    ensures forall i :: 0 <= i < |blocks| ==>
              units[i] == Found(CorpusText.UnitOf(blocks[i]), PackText(CorpusText.Body(blocks[i]), false, '%'))
  {
    hide EndsAt, MarkerFree, CorpusText.Placeable, WellFormed, Blocks, Described, PackText, CorpusText.Assembled, CorpusText.UnitOf;
    CorpusText.UnitsRead(gaps, blocks, last);
    rc, units := Split(a, top);
  }
}
