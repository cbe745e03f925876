/** Reading requests from received chunks (src/afmpkg/afmpkg-server.c, `receive`). */
module Server {
  import opened CStrings
  import opened TextLines
  import opened Request
  import opened Wire

  /** Once an error is recorded, further lines change nothing. */
  lemma {:induction false} ErrorSticks(r: Req, lines: seq<string>)
    requires r.scode != 0 && r.state == Failed
    ensures AddLines(r, lines) == r
    decreases |lines|
  {
    if lines != [] {
      assert AddLine(r, lines[0]) == r;
      ErrorSticks(r, lines[1..]);
    }
  }

  method EndOfLine(buffer: array<char>, it: nat, length: nat) returns (eol: nat)
    requires it <= length <= buffer.Length
    ensures it <= eol <= length && eol - it == LineLength(buffer[it..length])
  {
    eol := it;
    while eol < length && buffer[eol] != '\n'
      invariant it <= eol <= length
      invariant LineLength(buffer[it..length]) == eol - it + LineLength(buffer[eol..length])
    {
      assert buffer[eol..length][1..] == buffer[eol + 1..length];
      eol := eol + 1;
    }
  }

  /** Moves the unfinished line to the head of the buffer. */
  method Shift(buffer: array<char>, from: nat, length: nat) returns (kept: nat)
    requires from <= length <= buffer.Length
    modifies buffer
    ensures kept == length - from && buffer[..kept] == old(buffer[from..length])
  {
    kept := length - from;
    var it: nat, eol: nat := 0, from;
    while it < kept
      invariant it <= kept && eol == from + it
      invariant buffer[..it] == old(buffer[from..from + it])
      invariant forall i :: eol <= i < length ==> buffer[i] == old(buffer[i])
    {
      buffer[it] := buffer[eol];
      it, eol := it + 1, eol + 1;
      assert buffer[..it] == buffer[..it - 1] + [buffer[it - 1]];
    }
  }

  /** A text whose lines were read: a null stands after each of them, an empty one keeps its newline. */
  function Ended(t: string): (r: string)
    ensures |r| == |t|
    decreases |t|
  {
    var n := LineLength(t);
    if n == |t| then t
    else (if n == 0 then "\n" else t[..n] + [NUL]) + Ended(t[n + 1..])
  }

  lemma EndedStep(t: string, it: nat, eol: nat)
    requires it <= eol <= |t| && eol - it == LineLength(t[it..])
    ensures eol == |t| ==> Ended(t[it..]) == t[it..]
    ensures eol < |t| && eol == it ==> t[it] == '\n' && Ended(t[it..]) == "\n" + Ended(t[it + 1..])
    ensures eol < |t| && eol != it ==> Ended(t[it..]) == t[it..eol] + [NUL] + Ended(t[eol + 1..])
  {
    if eol < |t| {
      assert t[it..][eol - it + 1..] == t[eol + 1..] && t[it..][..eol - it] == t[it..eol];
      assert t[it..][eol - it] == t[eol];
    }
  }

  /**
   The inner loop of `receive`: every complete line of the chunk reaches the
   request, in order, and an unfinished line is kept at the head of the buffer.
   A chunk without one leaves the length as it was, and the lines read.
   */
  method Scan(buffer: array<char>, sz: nat, req: Receiver) returns (rc: int, length: nat)
    requires sz <= buffer.Length && Consistent(req.View())
    modifies buffer, req
    ensures Consistent(req.View())
    ensures var text := old(buffer[..sz]);
            var (lines, rest) := Split(text);
            && req.View() == AddLines(old(req.View()), lines)
            && (if rc < 0 then req.state == Failed else old(req.state) != Failed ==> req.state != Failed)
            && (rc >= 0 && rest != "" ==> length == |rest| <= buffer.Length && buffer[..length] == rest)
            && (rc >= 0 && rest == "" ==> length == sz && buffer[..sz] == Ended(text))
  {
    hide AddLine, AddLines, Consistent, Split, LineLength, Receiver.View, Ended;
    ghost var t := buffer[..sz];
    ghost var all := AddLines(req.View(), Split(t).0);
    rc, length := 0, sz;
    var it: nat := 0;
    assert t[0..] == t && buffer[..0] + Ended(t) == Ended(t);
    while it < length && rc >= 0
      invariant it <= length == sz
      invariant Consistent(req.View())
      invariant rc >= 0 ==> Split(t).1 == Split(t[it..]).1
      invariant rc >= 0 ==> AddLines(req.View(), Split(t[it..]).0) == all
      invariant rc < 0 ==> req.View() == all && req.state == Failed
      invariant rc >= 0 && old(req.state) != Failed ==> req.state != Failed
      invariant buffer[it..sz] == t[it..]
      invariant Ended(t) == buffer[..it] + Ended(t[it..])
    {
      var eol := EndOfLine(buffer, it, length);
      SplitStep(t, it, eol);
      EndedStep(t, it, eol);
      if eol == length {
        NoLines(req.View());
        length := Shift(buffer, it, length);
        return;
      }
      ghost var head := buffer[..it];
      if eol != it {
        assert buffer[it..eol] == buffer[it..sz][..eol - it] == t[it..][..eol - it] == t[it..eol];
        assert buffer[eol + 1..sz] == buffer[it..sz][eol + 1 - it..] == t[it..][eol + 1 - it..] == t[eol + 1..];
        rc := TakeLine(buffer, it, eol, sz, req, Split(t[eol + 1..]).0);
        assert head + t[it..eol] + [NUL] + Ended(t[eol + 1..]) == head + (t[it..eol] + [NUL] + Ended(t[eol + 1..]));
      } else {
        assert buffer[eol + 1..sz] == buffer[it..sz][1..] == t[it..][1..];
        assert buffer[it] == buffer[it..sz][0] == t[it];
        assert buffer[..it + 1] == head + "\n";
        assert head + "\n" + Ended(t[it + 1..]) == head + ("\n" + Ended(t[it + 1..]));
      }
      it := eol + 1;
    }
    if rc >= 0 {
      NoLines(req.View());
      assert t[it..] == "";
      SplitStep(t, it, it);
      EndedStep(t, it, it);
    }
  }

  /** The line between two positions of a text, and the lines after it. */
  lemma SplitStep(t: string, it: nat, eol: nat)
    requires it <= eol <= |t| && eol - it == LineLength(t[it..])
    ensures eol == |t| ==> Split(t[it..]) == ([], t[it..])
    ensures eol < |t| ==> Split(t[it..]).1 == Split(t[eol + 1..]).1
    ensures eol < |t| && eol == it ==> Split(t[it..]).0 == Split(t[eol + 1..]).0
    ensures eol < |t| && eol != it ==> Split(t[it..]).0 == [t[it..eol]] + Split(t[eol + 1..]).0
  {
    hide Split, LineLength;
    SplitFirst(t[it..]);
    if eol < |t| {
      assert t[it..][eol - it + 1..] == t[eol + 1..] && t[it..][..eol - it] == t[it..eol];
    }
  }

  lemma SplitFirst(t: string)
    ensures var n := LineLength(t);
            && (n == |t| ==> Split(t) == ([], t))
            && (n < |t| ==> Split(t).1 == Split(t[n + 1..]).1)
            && (n < |t| && n == 0 ==> Split(t).0 == Split(t[n + 1..]).0)
            && (0 < n < |t| ==> Split(t).0 == [t[..n]] + Split(t[n + 1..]).0)
  {
    var n := LineLength(t);
    if n < |t| { assert [] + Split(t[n + 1..]).0 == Split(t[n + 1..]).0; }
  }

  /** Ends the line with a null and gives it to the request. */
  method TakeLine(buffer: array<char>, it: nat, eol: nat, sz: nat, req: Receiver, ghost more: seq<string>) returns (rc: int)
    requires it < eol < sz <= buffer.Length && Consistent(req.View())
    modifies buffer, req
    ensures Consistent(req.View()) && buffer[eol + 1..sz] == old(buffer[eol + 1..sz])
    ensures buffer[..eol + 1] == old(buffer[..it]) + old(buffer[it..eol]) + [NUL]
    ensures AddLines(req.View(), more) == AddLines(old(req.View()), [old(buffer[it..eol])] + more)
    ensures rc < 0 ==> req.state == Failed && req.View() == AddLines(old(req.View()), [old(buffer[it..eol])] + more)
    ensures rc >= 0 ==> req.state != Failed
  {
    hide AddLine, AddLines, Consistent;
    var line := buffer[it..eol];
    buffer[eol] := NUL;
    rc := req.Receive(line);
    LineReceived(old(req.View()), req.View(), rc, line, more);
  }

  lemma NoLines(r: Req)
    ensures AddLines(r, []) == r
  {
  }

  /** One line received, with others to come. */
  lemma LineReceived(before: Req, after: Req, rc: int, line: string, more: seq<string>)
    requires Consistent(before) && after == AddLine(before, line)
    requires rc < 0 ==> after == Error(before, rc)
    ensures Consistent(after)
    ensures AddLines(before, [line] + more) == AddLines(after, more)
    ensures rc < 0 ==> after.state == Failed && AddLines(before, [line] + more) == after
  {
    hide AddLine;
    StepKeeps(before, line);
    assert ([line] + more)[1..] == more;
    if rc < 0 {
      ErrorSticks(after, more);
    }
  }

  // ------------------------------------------------------------------ whole receptions

  /**
   What a request becomes when pieces arrive. Each is put after what is held of
   the ones before, but only as many characters as it has itself are looked at.
   */
  function Heard(r: Req, held: string, pieces: seq<string>): Req
    decreases |pieces|
  {
    if pieces == [] then r
    else
      var seen := Seen(held, pieces[0]);
      Heard(AddLines(r, Split(seen).0), Held(seen), pieces[1..])
  }

  function Seen(held: string, piece: string): string {
    (held + piece)[..|piece|]
  }

  /** What is kept for the next piece: the unfinished line, or all that was seen. */
  function Held(seen: string): (h: string)
    ensures |h| <= |seen|
  {
    RestShorter(seen);
    if Split(seen).1 != "" then Split(seen).1 else Ended(seen)
  }

  lemma {:induction false} RestShorter(t: string)
    ensures |Split(t).1| <= |t|
    decreases |t|
  {
    if LineLength(t) < |t| { RestShorter(t[LineLength(t) + 1..]); }
  }

  lemma {:induction false} HeardAfterError(r: Req, held: string, pieces: seq<string>)
    requires r.scode != 0 && r.state == Failed
    ensures Heard(r, held, pieces) == r
    decreases |pieces|
  {
    hide AddLines, Split, Held, Seen;
    if pieces != [] {
      ErrorSticks(r, Split(Seen(held, pieces[0])).0);
      HeardAfterError(r, Held(Seen(held, pieces[0])), pieces[1..]);
    }
  }

  /** What can be received: no piece is empty, and each fits the buffer after what is held of the ones before. */
  ghost predicate Receivable(held: string, pieces: seq<string>, length: nat)
    decreases |pieces|
  {
    pieces != [] ==> 0 < |pieces[0]| <= length - |held| && Receivable(Held(Seen(held, pieces[0])), pieces[1..], length)
  }

  /** The request after the pieces, and after the error of the connection if it broke. */
  function Received(r: Req, pieces: seq<string>, broken: bool): Req {
    if broken then Error(Heard(r, "", pieces), -2000) else Heard(r, "", pieces)
  }

  /** The reception of a request, piece by piece, until there is no more, the connection breaks or a line is refused. */
  method Receive(buffer: array<char>, pieces: seq<string>, broken: bool, req: Receiver) returns (rc: int)
    requires Receivable("", pieces, buffer.Length) && Consistent(req.View())
    modifies buffer, req
    ensures req.View() == Received(old(req.View()), pieces, broken) && Consistent(req.View())
    ensures if rc < 0 then req.state == Failed else old(req.state) != Failed ==> req.state != Failed
  {
    hide AddLines, Split, Consistent, Ended, Heard, Receivable;
    ghost var all := Heard(req.View(), "", pieces);
    ghost var held := "";
    rc := 0;
    var length: nat, k := 0, 0;
    assert pieces[0..] == pieces && buffer[..0] == "";
    while k < |pieces| && rc >= 0
      invariant 0 <= k <= |pieces| && Consistent(req.View())
      invariant rc >= 0 ==> length <= buffer.Length && buffer[..length] == held && Receivable(held, pieces[k..], buffer.Length)
      invariant rc >= 0 ==> Heard(req.View(), held, pieces[k..]) == all
      invariant rc < 0 ==> req.state == Failed && req.View() == all
      invariant rc >= 0 && old(req.state) != Failed ==> req.state != Failed
    {
      ReceivableStep(held, pieces, k, buffer.Length);
      HeardStep(req.View(), held, pieces, k);
      var piece := pieces[k];
      ghost var tail := buffer[length + |piece|..];
      CopyIn(buffer, length, piece);
      assert buffer[..length + |piece|] == (held + piece + tail)[..length + |piece|] == held + piece;
      assert buffer[..|piece|] == buffer[..length + |piece|][..|piece|];
      ghost var seen := buffer[..|piece|];
      rc, length := Scan(buffer, |piece|, req);
      held := Held(seen);
      k := k + 1;
      if rc < 0 {
        FailedHasCode(req.View());
        HeardAfterError(req.View(), held, pieces[k..]);
      }
    }
    if rc >= 0 {
      assert pieces[k..] == [];
      HeardNothing(req.View(), held);
      Broken(req.View());
      if broken {
        rc := req.Fail(-2000);
      }
    } else {
      FailedHasCode(req.View());
    }
  }

  lemma Broken(r: Req)
    requires Consistent(r)
    ensures Consistent(Error(r, -2000)) && Error(r, -2000).state == Failed
  {
  }

  lemma FailedHasCode(r: Req)
    requires Consistent(r) && r.state == Failed
    ensures r.scode != 0
  {
  }

  lemma HeardNothing(r: Req, held: string)
    ensures Heard(r, held, []) == r
  {
  }

  lemma HeardStep(r: Req, held: string, pieces: seq<string>, k: nat)
    requires k < |pieces|
    ensures var seen := Seen(held, pieces[k]);
            Heard(r, held, pieces[k..]) == Heard(AddLines(r, Split(seen).0), Held(seen), pieces[k + 1..])
  {
    assert pieces[k..][1..] == pieces[k + 1..] && pieces[k..][0] == pieces[k];
  }

  lemma ReceivableStep(held: string, pieces: seq<string>, k: nat, length: nat)
    requires k < |pieces| && Receivable(held, pieces[k..], length)
    ensures 0 < |pieces[k]| <= length - |held| && Receivable(Held(Seen(held, pieces[k])), pieces[k + 1..], length)
  {
    assert pieces[k..][1..] == pieces[k + 1..] && pieces[k..][0] == pieces[k];
  }

  // ------------------------------------------------------------- messages in pieces

  /** A message that arrives in one piece becomes the request it asks for. */
  lemma HeardWhole(m: Message)
    requires Sendable(m)
    ensures Heard(INIT, "", [Text(Lines(m))]) == Requested(m)
  {
    hide AddLines, Split, Lines, Text, Ended;
    var t := Text(Lines(m));
    MessageRoundTrip(m);
    assert Seen("", t) == t;
    HeardStep(INIT, "", [t], 0);
    assert [t][0..] == [t] && [t][1..] == [];
  }

  function Joined(pieces: seq<string>): string {
    if pieces == [] then "" else pieces[0] + Joined(pieces[1..])
  }

  /** The first letter of the lines that end a request. */
  predicate Ending(c: char) {
    c == 'E' || c == 'S'
  }

  predicate Starts(t: string, i: nat)
    requires i < |t|
  {
    i == 0 || t[i - 1] == '\n'
  }

  /** No line of the text is empty, and none that is complete can end a request. */
  ghost predicate Tame(t: string) {
    && (forall i :: 0 <= i < |t| && t[i] == '\n' ==> !Starts(t, i))
    && (forall i, j :: 0 <= i <= j < |t| && Starts(t, i) && Ending(t[i]) ==> t[j] != '\n')
  }

  lemma TameSuffix(t: string, n: nat)
    requires Tame(t) && n < |t| && t[n] == '\n'
    ensures Tame(t[n + 1..])
  {
    var s := t[n + 1..];
    forall i | 0 <= i < |s| ensures Starts(s, i) ==> Starts(t, n + 1 + i) {
      assert i > 0 ==> s[i - 1] == t[n + i];
    }
    forall i | 0 <= i < |s| && s[i] == '\n' ensures !Starts(s, i) { assert t[n + 1 + i] == '\n'; }
    forall i, j | 0 <= i <= j < |s| && Starts(s, i) && Ending(s[i]) ensures s[j] != '\n' {
      assert t[n + 1 + i] == s[i] && t[n + 1 + j] == s[j];
    }
  }

  lemma TamePrefix(t: string, n: nat)
    requires Tame(t) && n <= |t|
    ensures Tame(t[..n])
  {
    var s := t[..n];
    forall i | 0 <= i < n ensures Starts(s, i) ==> Starts(t, i) {}
    forall i, j | 0 <= i <= j < n && Starts(s, i) && Ending(s[i]) ensures s[j] != '\n' { assert t[j] == s[j]; }
  }

  /** The lines of such a text cannot end a request. */
  lemma {:induction false} TameLines(t: string)
    requires Tame(t)
    ensures forall l :: l in Split(t).0 ==> l != "" && !Ending(l[0])
    decreases |t|
  {
    hide Tame, Ending;
    var n := LineLength(t);
    if n < |t| {
      FirstTame(t, n);
      TameSuffix(t, n);
      TameLines(t[n + 1..]);
      forall l | l in Split(t).0 ensures l != "" && !Ending(l[0]) {
        if l !in Split(t[n + 1..]).0 { assert l == t[..n]; }
      }
    }
  }

  lemma FirstTame(t: string, n: nat)
    requires Tame(t) && n < |t| && t[n] == '\n'
    ensures 0 < n && !Ending(t[0])
  {
    assert Starts(t, 0);
  }

  /** Neither can what is held of it, whatever comes next: it begins as one of its lines and has no newline. */
  lemma HeldOf(t: string) returns (q: nat)
    requires Tame(t) && t != ""
    ensures var h := Held(t); h != "" && '\n' !in h && q < |t| && Starts(t, q) && h[0] == t[q]
  {
    hide Split, Ended, Tame;
    RestOf(t);
    var rest := Split(t).1;
    if rest != "" {
      q := |t| - |rest|;
    } else {
      q := 0;
      EndedChars(t);
      FirstChar(t);
      var h := Ended(t);
      forall i | 0 <= i < |h| ensures h[i] != '\n' {}
    }
  }

  lemma FirstChar(t: string)
    requires Tame(t) && t != ""
    ensures t[0] != '\n'
  {
    assert Starts(t, 0);
  }

  lemma {:induction false} RestOf(t: string)
    ensures var rest := Split(t).1;
            && |rest| <= |t| && rest == t[|t| - |rest|..] && '\n' !in rest
            && (|rest| < |t| ==> t[|t| - |rest| - 1] == '\n')
    decreases |t|
  {
    var n := LineLength(t);
    if n < |t| {
      var s := t[n + 1..];
      RestOf(s);
      var rest := Split(s).1;
      assert s[|s| - |rest|..] == t[|t| - |rest|..];
      assert |rest| < |s| ==> s[|s| - |rest| - 1] == t[|t| - |rest| - 1];
    } else {
      assert t[0..] == t;
    }
  }

  lemma {:induction false} EndedChars(t: string)
    requires Tame(t)
    ensures forall i :: 0 <= i < |t| ==> Ended(t)[i] == if t[i] == '\n' then NUL else t[i]
    decreases |t|
  {
    hide Tame;
    var n := LineLength(t);
    if n < |t| {
      FirstTame(t, n);
      TameSuffix(t, n);
      EndedChars(t[n + 1..]);
    }
  }

  /** What is held, put before the rest of a text of which some is lost. */
  lemma HeldTame(seen: string, lost: string, x: string)
    requires Tame(seen + lost + x) && seen != ""
    ensures Held(seen) != "" && Tame(Held(seen) + x)
  {
    hide Held, Ending;
    var t, d := seen + lost + x, |seen + lost|;
    TamePrefix(t, |seen|);
    assert t[..|seen|] == seen;
    var q := HeldOf(seen);
    var h := Held(seen);
    var s := h + x;
    assert Starts(t, q) && t[q] == h[0];
    forall i | 0 <= i < |h| ensures s[i] == h[i] != '\n' { assert h[i] in h; }
    forall i | 0 <= i < |s| && Starts(s, i) ensures i == 0 || (i > |h| && Starts(t, i - |h| + d) && t[i - |h| + d] == s[i]) {
      if i > |h| { assert s[i - 1] == x[i - 1 - |h|] == t[i - 1 - |h| + d]; }
    }
    forall j | 0 <= j < |s| && s[j] == '\n' ensures j >= |h| && t[j - |h| + d] == '\n' {}
  }

  lemma {:induction false} QuietLines(r: Req, lines: seq<string>)
    requires r.state != Ready && forall l :: l in lines ==> l != "" && !Ending(l[0])
    ensures AddLines(r, lines).state != Ready
    decreases |lines|
  {
    hide AddLine, Ending;
    if lines != [] {
      assert lines[0] in lines;
      QuietLine(r, lines[0]);
      assert forall l :: l in lines[1..] ==> l in lines;
      QuietLines(AddLine(r, lines[0]), lines[1..]);
    }
  }

  lemma QuietLine(r: Req, line: string)
    requires r.state != Ready && line != "" && !Ending(line[0])
    ensures AddLine(r, line).state != Ready
  {
    hide StrToL, OperationKind, ArgText, Arg;
    assert !HasKey(line, "END") && !HasKey(line, "STATUS") by {
      assert |line| > 3 ==> line[..3][0] == line[0];
      assert |line| > 6 ==> line[..6][0] == line[0];
    }
    hide HasKey;
  }

  /** Pieces of a text whose last character decides: it is never looked at. */
  lemma {:induction false} NeverReady(r: Req, held: string, pieces: seq<string>)
    requires r.state != Ready && pieces != [] && (held != "" || |pieces| > 1)
    requires forall i :: 0 <= i < |pieces| ==> pieces[i] != ""
    requires Joined(pieces) != "" && Tame(held + Joined(pieces)[..|Joined(pieces)| - 1])
    ensures Heard(r, held, pieces).state != Ready
    decreases |pieces|
  {
    hide AddLines, Split, Held, Tame, Ending;
    var p, more := pieces[0], pieces[1..];
    var all, after := Joined(pieces), Joined(more);
    var t, seen := held + all[..|all| - 1], Seen(held, p);
    if more != [] { assert after == more[0] + Joined(more[1..]) && more[0] == pieces[1]; }
    assert seen == t[..|p|];
    TamePrefix(t, |p|);
    TameLines(seen);
    var q := AddLines(r, Split(seen).0);
    QuietLines(r, Split(seen).0);
    if more != [] {
      var lost, x := (held + p)[|p|..], after[..|after| - 1];
      assert seen + lost == held + p;
      assert all[..|all| - 1] == p + x;
      assert t == seen + lost + x;
      HeldTame(seen, lost, x);
      NeverReady(q, Held(seen), more);
    }
  }

  /** Of the text of lines of which only the last can end a request, all but the last character. */
  lemma {:induction false} TextTame(lines: seq<string>)
    requires lines != [] && forall i :: 0 <= i < |lines| ==> Travels(lines[i])
    requires forall i :: 0 <= i < |lines| - 1 ==> lines[i] != "" && !Ending(lines[i][0])
    ensures Text(lines) != "" && Tame(Text(lines)[..|Text(lines)| - 1])
    decreases |lines|
  {
    hide Text, Ending;
    var a, more := lines[0], lines[1..];
    assert lines == [a] + more;
    TextConcat([a], more);
    TextOne(a);
    assert Travels(a);
    if more == [] {
      NoText();
      assert Text(lines)[..|Text(lines)| - 1] == a;
    } else {
      TextTame(more);
      var y := Text(more)[..|Text(more)| - 1];
      assert Text(lines)[..|Text(lines)| - 1] == a + "\n" + y;
      LineBeforeTame(a, y);
    }
  }

  lemma NoText()
    ensures Text([]) == ""
  {
  }

  lemma LineBeforeTame(a: string, y: string)
    requires Travels(a) && !Ending(a[0]) && Tame(y)
    ensures Tame(a + "\n" + y)
  {
    hide Ending;
    var s, d := a + "\n" + y, |a| + 1;
    forall i | 0 <= i < |a| ensures s[i] == a[i] != '\n' { assert a[i] in a; }
    forall i | 0 <= i < |s| && Starts(s, i) ensures i == 0 || (i >= d && Starts(y, i - d) && y[i - d] == s[i]) {
      if i > d { assert s[i - 1] == y[i - 1 - d]; }
    }
    forall i, j | 0 <= i <= j < |s| && Starts(s, i) && Ending(s[i]) ensures s[j] != '\n' { assert s[j] == y[j - d]; }
  }

  lemma {:induction false} FileLinesQuiet(files: seq<string>)
    ensures forall i :: 0 <= i < |FileLines(files)| ==> FileLines(files)[i] != "" && FileLines(files)[i][0] == 'F'
    decreases |files|
  {
    if files != [] { FileLinesQuiet(files[..|files| - 1]); }
  }

  /** Only the last line of a message ends it. */
  lemma OnlyLastEnds(m: Message)
    ensures forall i :: 0 <= i < |Lines(m)| - 1 ==> Lines(m)[i] != "" && !Ending(Lines(m)[i][0])
  {
    hide FileLines, Decimal, Word;
    FileLinesQuiet(m.files);
    assert forall i :: 0 <= i < 4 ==> Opening(m)[i] != "" && !Ending(Opening(m)[i][0]);
    assert forall i :: 0 <= i < |Details(m)| ==> Details(m)[i] != "" && !Ending(Details(m)[i][0]);
  }

  /** All of a message but its last newline. */
  lemma MessageTame(m: Message)
    requires Sendable(m)
    ensures Text(Lines(m)) != "" && Tame(Text(Lines(m))[..|Text(Lines(m))| - 1])
  {
    hide Lines, Text, Sendable, Tame, Ending;
    var ls := Lines(m);
    forall i | 0 <= i < |ls| ensures Travels(ls[i]) { LinesTravel(m, i); }
    OnlyLastEnds(m);
    LastLine(m);
    TextTame(ls);
  }

  /** The end of a message is read exactly when it arrives in one piece. */
  lemma ReadyIff(m: Message, pieces: seq<string>)
    requires Sendable(m) && Joined(pieces) == Text(Lines(m)) && forall i :: 0 <= i < |pieces| ==> pieces[i] != ""
    ensures Heard(INIT, "", pieces).state == Ready <==> |pieces| == 1
    ensures |pieces| == 1 ==> Heard(INIT, "", pieces) == Requested(m)
  {
    hide AddLines, Split, Lines, Text, Ended, Heard, Sendable, Tame, Ending;
    var ls := Lines(m);
    MessageTame(m);
    if |pieces| == 1 {
      assert pieces[0] + Joined(pieces[1..]) == pieces[0];
      assert pieces == [Text(ls)];
      HeardWhole(m);
    } else {
      var t := Text(ls)[..|Text(ls)| - 1];
      assert "" + t == t;
      NeverReady(INIT, "", pieces);
    }
  }

  lemma LastLine(m: Message)
    ensures Lines(m) != []
  {
  }
}
