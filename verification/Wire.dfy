/**
 The messages of the installer protocol: what a client writes
 (src/afmpkg/afmpkg-client.c) and what the daemon reads back
 (src/afmpkg/afmpkg-request.c).
 */
module Wire {
  import opened CStrings
  import opened TextLines
  import opened Options
  import opened Paths
  import opened Request

  datatype Operation = Add | Remove | CheckAdd | CheckRemove

  function Word(op: Operation): string {
    match op
    case Add => "ADD"
    case Remove => "REMOVE"
    case CheckAdd => "CHECK-ADD"
    case CheckRemove => "CHECK-REMOVE"
  }

  function KindOf(op: Operation): Kind {
    match op
    case Add => AddPackage
    case Remove => RemovePackage
    case CheckAdd => CheckAddPackage
    case CheckRemove => CheckRemovePackage
  }

  /** What a message says. */
  datatype Message = Message(
    op: Operation,
    package: string,
    index: nat,
    count: nat,
    root: Option<string>,
    transid: Option<string>,
    redpakid: Option<string>,
    files: seq<string>)

  // ------------------------------------------------------------------- numbers

  function DigitChar(d: nat): (c: char)
    requires d < 10
    ensures IsDigit(c) && Digit(c) == d
  {
    ('0' as int + d) as char
  }

  function Decimal(n: nat): string {
    (if n < 10 then "" else Decimal(n / 10)) + [DigitChar(n % 10)]
  }

  predicate AllDigits(s: string) {
    forall i :: 0 <= i < |s| ==> IsDigit(s[i])
  }

  lemma {:induction false} DigitsAppend(s: string, c: char, v: nat)
    requires AllDigits(s) && IsDigit(c)
    ensures Digits(s + [c], v) == (10 * Digits(s, v).0 + Digit(c), "")
    decreases |s|
  {
    if s == "" {
      assert s + [c] == [c] && [c][1..] == "";
    } else {
      assert (s + [c])[1..] == s[1..] + [c];
      assert AllDigits(s[1..]);
      DigitsAppend(s[1..], c, 10 * v + Digit(s[0]));
    }
  }

  lemma {:induction false} DecimalDigits(n: nat)
    ensures AllDigits(Decimal(n)) && Decimal(n) != "" && Digits(Decimal(n), 0) == (n, "")
  {
    var c := DigitChar(n % 10);
    if n < 10 {
      assert Decimal(n) == "" + [c];
      DigitsAppend("", c, 0);
    } else {
      DecimalDigits(n / 10);
      DigitsAppend(Decimal(n / 10), c, 0);
    }
  }

  /** The daemon reads the number the client printed. */
  lemma DecimalRead(n: nat)
    requires n <= LONG_MAX
    ensures StrToL(Decimal(n)) == (n, "")
  {
    hide Decimal, Digits;
    DecimalDigits(n);
    assert IsDigit(Decimal(n)[0]);
  }

  // --------------------------------------------------------------------- lines

  function Line(key: string, val: string): string {
    key + " " + val
  }

  function LineOf(key: string, val: Option<string>): seq<string> {
    if val.Some? then [Line(key, val.value)] else []
  }

  function FileLines(files: seq<string>): seq<string> {
    if files == [] then [] else FileLines(files[..|files| - 1]) + [Line("FILE", files[|files| - 1])]
  }

  /** The lines every message starts with. */
  function Opening(m: Message): seq<string> {
    OpeningOf(m.op, m.package, m.index, m.count)
  }

  function OpeningOf(op: Operation, package: string, index: nat, count: nat): (lines: seq<string>)
    ensures |lines| == 4
  {
    [Line("BEGIN", Word(op)), Line("PACKAGE", package), Line("INDEX", Decimal(index)), Line("COUNT", Decimal(count))]
  }

  function Details(m: Message): seq<string> {
    LineOf("ROOT", m.root) + LineOf("TRANSID", m.transid) + LineOf("REDPAKID", m.redpakid)
  }

  function Lines(m: Message): seq<string> {
    Opening(m) + Details(m) + FileLines(m.files) + [Line("END", Word(m.op))]
  }

  /** Lines, each ended by a newline. */
  function Text(lines: seq<string>): string {
    if lines == [] then "" else Text(lines[..|lines| - 1]) + lines[|lines| - 1] + "\n"
  }

  lemma {:induction false} TextConcat(a: seq<string>, b: seq<string>)
    ensures Text(a + b) == Text(a) + Text(b)
    decreases |b|
  {
    if b == [] {
      assert a + b == a;
    } else {
      var n := |b| - 1;
      assert (a + b)[..|a + b| - 1] == a + b[..n];
      TextConcat(a, b[..n]);
    }
  }

  lemma TextOne(line: string)
    ensures Text([line]) == line + "\n"
  {
    assert [line][..0] == [];
  }

  // ------------------------------------------------------------------- reading

  /** A value that can travel. */
  predicate Clean(s: string) {
    '\n' !in s && NUL !in s
  }

  lemma CStrClean(s: string, p: nat)
    requires p <= |s| && NUL !in s
    ensures CStr(s, p) == s[p..]
    decreases |s| - p
  {
    if p < |s| { CStrClean(s, p + 1); }
  }

  lemma OtherKey(line: string, key: string, i: nat)
    requires i < |key| && i < |line| && line[i] != key[i]
    ensures !HasKey(line, key)
  {
    assert |line| >= |key| ==> line[..|key|][i] == line[i];
  }

  lemma OwnKey(key: string, val: string)
    ensures HasKey(Line(key, val), key) && Arg(Line(key, val), key) == val
    ensures NUL !in val ==> ArgText(Line(key, val), key) == val
  {
    if NUL !in val { CStrClean(val, 0); }
  }

  predicate KnownKey(key: string) {
    key in {"BEGIN", "COUNT", "END", "FILE", "INDEX", "PACKAGE", "REDPAKID", "ROOT", "TRANSID"}
  }

  /** A line has no key but its own. */
  lemma OnlyOwnKey(key: string, other: string, val: string)
    requires KnownKey(key) && KnownKey(other) && key != other
    ensures !HasKey(Line(key, val), other)
  {
    var line := Line(key, val);
    if key[0] != other[0] {
      assert line[0] == key[0];
      OtherKey(line, other, 0);
    } else {
      assert key[1] != other[1];
      assert line[1] == key[1];
      OtherKey(line, other, 1);
    }
  }

  lemma OnlyOwnKeys(key: string, val: string)
    requires KnownKey(key)
    ensures forall other | KnownKey(other) :: HasKey(Line(key, val), other) <==> key == other
  {
    forall other | KnownKey(other) ensures HasKey(Line(key, val), other) <==> key == other {
      if key == other { OwnKey(key, val); } else { OnlyOwnKey(key, other, val); }
    }
  }

  ghost predicate Started(r: Req) {
    r.state == Pending && r.kind != Unset
  }

  lemma ReadOperation(r: Req, op: Operation)
    requires r.state == Pending
    ensures r.kind == Unset ==> AddLine(r, Line("BEGIN", Word(op))) == r.(kind := KindOf(op))
    ensures r.kind == KindOf(op) ==> AddLine(r, Line("END", Word(op))) == r.(state := Ready)
  {
    assert NUL !in Word(op) && OperationKind(Word(op)) == KindOf(op);
    hide HasKey, Line, ArgText, OperationKind, Word;
    OnlyOwnKeys("BEGIN", Word(op));
    OnlyOwnKeys("END", Word(op));
    OwnKey("BEGIN", Word(op));
    OwnKey("END", Word(op));
  }

  lemma ReadNumber(r: Req, n: nat)
    requires Started(r) && 1 <= n <= UINT_MAX
    ensures r.index == 0 && (r.count == 0 || n <= r.count) ==>
              AddLine(r, Line("INDEX", Decimal(n))) == r.(index := n)
    ensures r.count == 0 && r.index <= n ==>
              AddLine(r, Line("COUNT", Decimal(n))) == r.(count := n)
  {
    hide HasKey, Line, ArgText, Decimal, StrToL;
    DecimalRead(n);
    DecimalDigits(n);
    assert NUL !in Decimal(n);
    OnlyOwnKeys("INDEX", Decimal(n));
    OnlyOwnKeys("COUNT", Decimal(n));
    OwnKey("INDEX", Decimal(n));
    OwnKey("COUNT", Decimal(n));
  }

  lemma ReadPackage(r: Req, val: string)
    requires Started(r) && Clean(val) && r.package == None
    ensures AddLine(r, Line("PACKAGE", val)) == r.(package := Some(val))
  {
    hide HasKey, Line, ArgText;
    OnlyOwnKeys("PACKAGE", val);
    OwnKey("PACKAGE", val);
  }

  lemma ReadFile(r: Req, val: string)
    requires Started(r)
    ensures AddLine(r, Line("FILE", val)) == r.(files := r.files + {Components(val)})
  {
    hide HasKey, Line, Components;
    OnlyOwnKeys("FILE", val);
    OwnKey("FILE", val);
  }

  predicate CleanOption(o: Option<string>) {
    o.Some? ==> Clean(o.value)
  }

  lemma OneLine(r: Req, line: string)
    ensures AddLines(r, [line]) == AddLine(r, line)
  {
    hide AddLine;
    assert AddLines(AddLine(r, line), []) == AddLine(r, line);
    assert [line][1..] == [];
  }

  lemma ReadRoot(r: Req, val: Option<string>)
    requires Started(r) && CleanOption(val) && r.root == None
    ensures AddLines(r, LineOf("ROOT", val)) == r.(root := val)
  {
    if val.Some? {
      hide HasKey, Line, ArgText;
      OnlyOwnKeys("ROOT", val.value);
      OwnKey("ROOT", val.value);
      OneLine(r, Line("ROOT", val.value));
    }
  }

  lemma ReadTransid(r: Req, val: Option<string>)
    requires Started(r) && CleanOption(val) && r.transid == None
    ensures AddLines(r, LineOf("TRANSID", val)) == r.(transid := val)
  {
    if val.Some? {
      hide HasKey, Line, ArgText;
      OnlyOwnKeys("TRANSID", val.value);
      OwnKey("TRANSID", val.value);
      OneLine(r, Line("TRANSID", val.value));
    }
  }

  lemma ReadRedpakid(r: Req, val: Option<string>)
    requires Started(r) && CleanOption(val) && r.redpakid == None
    ensures AddLines(r, LineOf("REDPAKID", val)) == r.(redpakid := val)
  {
    if val.Some? {
      hide HasKey, Line, ArgText;
      OnlyOwnKeys("REDPAKID", val.value);
      OwnKey("REDPAKID", val.value);
      OneLine(r, Line("REDPAKID", val.value));
    }
  }

  /** The files of a message, as the daemon keeps them. */
  ghost function FileSet(files: seq<string>): set<Path> {
    set i | 0 <= i < |files| :: Components(files[i])
  }

  lemma {:induction false} ReadFiles(r: Req, files: seq<string>)
    requires Started(r)
    ensures AddLines(r, FileLines(files)) == r.(files := r.files + FileSet(files))
  {
    if files == [] {
      assert r.files + FileSet(files) == r.files;
    } else {
      hide AddLine, AddLines, Components, Line;
      var n := |files| - 1;
      var q := r.(files := r.files + FileSet(files[..n]));
      ReadFiles(r, files[..n]);
      AddLinesConcat(r, FileLines(files[..n]), [Line("FILE", files[n])]);
      OneLine(q, Line("FILE", files[n]));
      ReadFile(q, files[n]);
      assert FileSet(files) == FileSet(files[..n]) + {Components(files[n])};
      assert r.files + FileSet(files) == q.files + {Components(files[n])};
    }
  }

  /** The request a message asks for. */
  ghost function Requested(m: Message): Req {
    Req(Ready, KindOf(m.op), 0, m.index, m.count, m.transid, Some(m.package), m.root, m.redpakid, FileSet(m.files))
  }

  /** What the client is given: numbers in range, values that can travel. */
  ghost predicate Sendable(m: Message) {
    && 1 <= m.index <= m.count <= UINT_MAX
    && Clean(m.package) && CleanOption(m.root) && CleanOption(m.transid) && CleanOption(m.redpakid)
    && forall i :: 0 <= i < |m.files| ==> Clean(m.files[i])
  }

  lemma ReadOpening(m: Message)
    requires Sendable(m)
    ensures AddLines(INIT, Opening(m)) ==
            INIT.(kind := KindOf(m.op), package := Some(m.package), index := m.index, count := m.count)
  {
    hide AddLine, Line, Decimal;
    var ls := Opening(m);
    var r1 := INIT.(kind := KindOf(m.op));
    var r2 := r1.(package := Some(m.package));
    var r3 := r2.(index := m.index);
    var r4 := r3.(count := m.count);
    ReadOperation(INIT, m.op);
    ReadPackage(r1, m.package);
    ReadNumber(r2, m.index);
    ReadNumber(r3, m.count);
    assert AddLines(r4, ls[1..][1..][1..][1..]) == r4;
    assert AddLines(r3, ls[1..][1..][1..]) == r4;
    assert AddLines(r2, ls[1..][1..]) == r4;
    assert AddLines(r1, ls[1..]) == r4;
  }

  lemma ReadDetails(r: Req, m: Message)
    requires Started(r) && Sendable(m) && r.root == None && r.transid == None && r.redpakid == None
    ensures AddLines(r, Details(m)) == r.(root := m.root, transid := m.transid, redpakid := m.redpakid)
  {
    hide AddLines, LineOf, Clean;
    var r1 := r.(root := m.root);
    var r2 := r1.(transid := m.transid);
    ReadRoot(r, m.root);
    ReadTransid(r1, m.transid);
    ReadRedpakid(r2, m.redpakid);
    AddLinesConcat(r, LineOf("ROOT", m.root), LineOf("TRANSID", m.transid));
    AddLinesConcat(r, LineOf("ROOT", m.root) + LineOf("TRANSID", m.transid), LineOf("REDPAKID", m.redpakid));
  }

  /**
   Whatever a client can say, the daemon accepts line by line, and ends with a
   ready request that says the same.
   */
  lemma MessageAccepted(m: Message)
    requires Sendable(m)
    ensures AddLines(INIT, Lines(m)) == Requested(m)
  {
    hide AddLines, AddLine, Opening, Details, FileLines, Clean, Line;
    var r1 := INIT.(kind := KindOf(m.op), package := Some(m.package), index := m.index, count := m.count);
    var r2 := r1.(root := m.root, transid := m.transid, redpakid := m.redpakid);
    var r3 := r2.(files := r2.files + FileSet(m.files));
    ReadOpening(m);
    ReadDetails(r1, m);
    ReadFiles(r2, m.files);
    assert r2.files + FileSet(m.files) == FileSet(m.files);
    ReadOperation(r3, m.op);
    OneLine(r3, Line("END", Word(m.op)));
    AddLinesConcat(INIT, Opening(m), Details(m));
    AddLinesConcat(INIT, Opening(m) + Details(m), FileLines(m.files));
    AddLinesConcat(INIT, Opening(m) + Details(m) + FileLines(m.files), [Line("END", Word(m.op))]);
  }

  // ------------------------------------------------------------------ receiving

  /** The complete lines of a text, empty ones dropped, and what follows the last newline. */
  function Split(t: string): (seq<string>, string)
    decreases |t|
  {
    var n := LineLength(t);
    if n == |t| then ([], t)
    else
      var (lines, rest) := Split(t[n + 1..]);
      ((if n == 0 then [] else [t[..n]]) + lines, rest)
  }

  /** A line that is kept whole by splitting. */
  predicate Travels(line: string) {
    line != "" && '\n' !in line
  }

  /** A text made of non-empty lines splits into them. */
  lemma {:induction false} SplitText(lines: seq<string>)
    requires forall i :: 0 <= i < |lines| ==> Travels(lines[i])
    ensures Split(Text(lines)) == (lines, "")
    decreases |lines|
  {
    if lines != [] {
      var a, rest := lines[0], Text(lines[1..]);
      assert lines == [a] + lines[1..];
      TextConcat([a], lines[1..]);
      TextOne(a);
      assert Text(lines) == a + "\n" + rest;
      LineLengthIs(a, rest);
      SplitText(lines[1..]);
      assert (a + "\n" + rest)[..|a|] == a && (a + "\n" + rest)[|a| + 1..] == rest;
    }
  }

  lemma {:induction false} FileLinesTravel(files: seq<string>, i: nat)
    requires forall k :: 0 <= k < |files| ==> Clean(files[k])
    requires i < |FileLines(files)|
    ensures Travels(FileLines(files)[i])
  {
    var n := |files| - 1;
    if i < |FileLines(files[..n])| {
      FileLinesTravel(files[..n], i);
    }
  }

  lemma DetailsTravel(m: Message, i: nat)
    requires Sendable(m) && i < |Details(m)|
    ensures Travels(Details(m)[i])
  {
  }

  lemma LinesTravel(m: Message, i: nat)
    requires Sendable(m) && i < |Lines(m)|
    ensures Travels(Lines(m)[i])
  {
    hide FileLines, Decimal, Details, Line, Travels;
    var k := i - 4;
    var j := k - |Details(m)|;
    if k < 0 {
      OpeningTravels(m, i);
    } else if j < 0 {
      DetailsTravel(m, k);
    } else if j < |FileLines(m.files)| {
      FileLinesTravel(m.files, j);
    } else {
      EndTravels(m.op);
    }
  }

  lemma EndTravels(op: Operation)
    ensures Travels(Line("END", Word(op))) && Travels(Line("BEGIN", Word(op)))
  {
  }

  lemma OpeningTravels(m: Message, i: nat)
    requires Sendable(m) && i < 4
    ensures Travels(Opening(m)[i])
  {
    hide Decimal, Word;
    EndTravels(m.op);
    DecimalDigits(m.index);
    DecimalDigits(m.count);
    assert '\n' !in Decimal(m.index) && '\n' !in Decimal(m.count);
  }

  /** A message written out, split again and read is the request it asks for. */
  lemma MessageRoundTrip(m: Message)
    requires Sendable(m)
    ensures Split(Text(Lines(m))) == (Lines(m), "")
    ensures AddLines(INIT, Split(Text(Lines(m))).0) == Requested(m)
  {
    hide Lines, AddLines, Text, Split;
    forall i | 0 <= i < |Lines(m)| ensures Travels(Lines(m)[i]) { LinesTravel(m, i); }
    SplitText(Lines(m));
    MessageAccepted(m);
  }
}
