/**
 The line-driven request of the installer daemon (src/afmpkg/afmpkg-request.c,
 `afmpkg_request_add_line`). `AddLine` is the transition for one line; the
 class `Receiver` updates its fields the same way.
 */
module Request {
  import opened CStrings
  import opened Options
  import opened Paths

  datatype State = Pending | Ready | Failed

  datatype Kind = Unset | AddPackage | RemovePackage | CheckAddPackage | CheckRemovePackage | GetStatus

  const UINT_MAX := 0xffff_ffff
  const LONG_MAX := 0x7fff_ffff_ffff_ffff

  /** The fields of a request. */
  datatype Req = Req(
    state: State,
    kind: Kind,
    scode: int,
    index: nat,
    count: nat,
    transid: Option<string>,
    package: Option<string>,
    root: Option<string>,
    redpakid: Option<string>,
    files: set<Path>)

  const INIT := Req(Pending, Unset, 0, 0, 0, None, None, None, None, {})

  /** The first error is kept. */
  function Error(r: Req, code: int): Req {
    if r.scode == 0 then r.(state := Failed, scode := code) else r
  }

  // ------------------------------------------------------------------- numbers

  predicate IsSpace(c: char) {
    c == ' ' || '\t' <= c <= '\r'
  }

  predicate IsDigit(c: char) {
    '0' <= c <= '9'
  }

  function Digit(c: char): nat
    requires IsDigit(c)
  {
    (c as int) - ('0' as int)
  }

  /** Value of the digits at the head of a string, and what follows them. */
  function Digits(s: string, value: nat): (nat, string) {
    if s == "" || !IsDigit(s[0]) then (value, s) else Digits(s[1..], 10 * value + Digit(s[0]))
  }

  function SkipSpaces(s: string): string {
    if s != "" && IsSpace(s[0]) then SkipSpaces(s[1..]) else s
  }

  /** `strtol` in base ten: the value, saturated, and the text after it. */
  function StrToL(s: string): (int, string) {
    var t := SkipSpaces(s);
    var neg := t != "" && t[0] == '-';
    var u := if t != "" && (t[0] == '-' || t[0] == '+') then t[1..] else t;
    if u == "" || !IsDigit(u[0]) then (0, s)
    else
      var (v, rest) := Digits(u, 0);
      var w: int := if v > LONG_MAX then LONG_MAX else v;
      (if neg then (if v > LONG_MAX then -LONG_MAX - 1 else -w) else w, rest)
  }

  // --------------------------------------------------------------------- lines

  /** Does the line consist of that key, a space and an argument? */
  predicate HasKey(line: string, key: string) {
    |line| > |key| && line[..|key|] == key && line[|key|] == ' '
  }

  function Arg(line: string, key: string): string
    requires HasKey(line, key)
  {
    line[|key| + 1..]
  }

  /** The argument as a C string, that is up to its first null. */
  function ArgText(line: string, key: string): string
    requires HasKey(line, key)
  {
    CStr(Arg(line, key), 0)
  }

  function OperationKind(s: string): Kind {
    if s == "ADD" then AddPackage
    else if s == "REMOVE" then RemovePackage
    else if s == "CHECK-ADD" then CheckAddPackage
    else if s == "CHECK-REMOVE" then CheckRemovePackage
    else Unset
  }

  function Begin(r: Req, arg: string): Req {
    if r.kind != Unset then Error(r, -1001)
    else if OperationKind(arg) == Unset then Error(r, -1002)
    else r.(kind := OperationKind(arg))
  }

  function SetCount(r: Req, arg: string): Req {
    if r.count != 0 || r.kind == Unset then Error(r, -1003)
    else
      var (val, rest) := StrToL(arg);
      if rest != "" then Error(r, -1004)
      else if val < 1 || val > UINT_MAX then Error(r, -1005)
      else if r.index != 0 && val < r.index then Error(r, -1006)
      else r.(count := val)
  }

  function End(r: Req, arg: string): Req {
    if r.kind != OperationKind(arg) then Error(r, -1008) else r.(state := Ready)
  }

  function AddFile(r: Req, arg: string): Req {
    if r.kind == Unset then Error(r, -1009) else r.(files := r.files + {Components(arg)})
  }

  function SetIndex(r: Req, arg: string): Req {
    if r.index != 0 || r.kind == Unset then Error(r, -1011)
    else
      var (val, rest) := StrToL(arg);
      if rest != "" then Error(r, -1012)
      else if val < 1 || val > UINT_MAX then Error(r, -1013)
      else if r.count != 0 && val > r.count then Error(r, -1014)
      else r.(index := val)
  }

  function SetPackage(r: Req, arg: string): Req {
    if r.package.Some? || r.kind == Unset then Error(r, -1015) else r.(package := Some(arg))
  }

  function SetRedpakid(r: Req, arg: string): Req {
    if r.redpakid.Some? || r.kind == Unset then Error(r, -1017) else r.(redpakid := Some(arg))
  }

  function SetRoot(r: Req, arg: string): Req {
    if r.root.Some? || r.kind == Unset then Error(r, -1018) else r.(root := Some(arg))
  }

  function SetTransid(r: Req, arg: string): Req {
    if r.transid.Some? || r.kind == Unset then Error(r, -1019) else r.(transid := Some(arg))
  }

  function Status(r: Req, arg: string): Req {
    if r.kind != Unset || r.transid.Some? then Error(r, -1020)
    else r.(transid := Some(arg), kind := GetStatus, state := Ready)
  }

  /** The effect of one line. */
  function AddLine(r: Req, line: string): Req {
    if r.state != Pending then Error(r, -1000)
    else if HasKey(line, "BEGIN") then Begin(r, ArgText(line, "BEGIN"))
    else if HasKey(line, "COUNT") then SetCount(r, ArgText(line, "COUNT"))
    else if HasKey(line, "END") then End(r, ArgText(line, "END"))
    else if HasKey(line, "FILE") then AddFile(r, Arg(line, "FILE"))
    else if HasKey(line, "INDEX") then SetIndex(r, ArgText(line, "INDEX"))
    else if HasKey(line, "PACKAGE") then SetPackage(r, ArgText(line, "PACKAGE"))
    else if HasKey(line, "REDPAKID") then SetRedpakid(r, ArgText(line, "REDPAKID"))
    else if HasKey(line, "ROOT") then SetRoot(r, ArgText(line, "ROOT"))
    else if HasKey(line, "TRANSID") then SetTransid(r, ArgText(line, "TRANSID"))
    else if HasKey(line, "STATUS") then Status(r, ArgText(line, "STATUS"))
    else Error(r, -1021)
  }

  /** The effect of lines, in order. */
  function AddLines(r: Req, lines: seq<string>): Req
    decreases |lines|
  {
    if lines == [] then r else AddLines(AddLine(r, lines[0]), lines[1..])
  }

  lemma {:induction false} AddLinesConcat(r: Req, a: seq<string>, b: seq<string>)
    ensures AddLines(r, a + b) == AddLines(AddLines(r, a), b)
    decreases |a|
  {
    if a == [] {
      assert a + b == b;
    } else {
      assert (a + b)[1..] == a[1..] + b;
      AddLinesConcat(AddLine(r, a[0]), a[1..], b);
    }
  }

  // ---------------------------------------------------------------- invariants

  /** What holds of a request that only received lines. */
  ghost predicate Consistent(r: Req) {
    && (r.index != 0 && r.count != 0 ==> r.index <= r.count)
    && r.index <= UINT_MAX && r.count <= UINT_MAX
    && (r.state == Failed <==> r.scode != 0) && r.scode <= 0
    && (r.kind == Unset ==> r.index == 0 && r.count == 0 && r.package == None && r.root == None
                            && r.redpakid == None && r.transid == None && r.files == {})
    && (r.kind == GetStatus ==> r.transid.Some? && r.state != Pending)
  }

  /** A later request: what is set stays set, to the same value. */
  ghost predicate Extends(r: Req, q: Req) {
    && (r.kind != Unset ==> q.kind == r.kind)
    && (r.index != 0 ==> q.index == r.index)
    && (r.count != 0 ==> q.count == r.count)
    && (r.package.Some? ==> q.package == r.package)
    && (r.root.Some? ==> q.root == r.root)
    && (r.redpakid.Some? ==> q.redpakid == r.redpakid)
    && (r.transid.Some? ==> q.transid == r.transid)
    && r.files <= q.files
    && (r.scode != 0 ==> q == r)
    && (r.state != Pending ==> q == r || q == Error(r, -1000))
  }

  lemma StepKeeps(r: Req, line: string)
    requires Consistent(r)
    ensures Consistent(AddLine(r, line)) && Extends(r, AddLine(r, line))
  {
    hide *;
    StepConsistent(r, line);
    StepExtends(r, line);
  }

  lemma StepConsistent(r: Req, line: string)
    requires Consistent(r)
    ensures Consistent(AddLine(r, line))
  {
    hide StrToL, Components, HasKey, OperationKind, ArgText, Arg;
    OperationIsNotStatus(if HasKey(line, "BEGIN") then ArgText(line, "BEGIN") else "");
  }

  lemma StepExtends(r: Req, line: string)
    requires Consistent(r)
    ensures Extends(r, AddLine(r, line))
  {
    hide StrToL, Components, HasKey, OperationKind, ArgText, Arg;
  }

  lemma OperationIsNotStatus(s: string)
    ensures OperationKind(s) != GetStatus
  {
  }

  lemma ExtendsTransitive(p: Req, q: Req, r: Req)
    requires Extends(p, q) && Extends(q, r)
    ensures Extends(p, r)
  {
  }

  /**
   In every run: the index never exceeds the count once both are set, every
   single-valued field is written at most once, the first error sticks.
   */
  lemma {:induction false} RunKeeps(r: Req, lines: seq<string>)
    requires Consistent(r)
    ensures Consistent(AddLines(r, lines)) && Extends(r, AddLines(r, lines))
    decreases |lines|
  {
    if lines != [] {
      hide AddLine;
      StepKeeps(r, lines[0]);
      RunKeeps(AddLine(r, lines[0]), lines[1..]);
      ExtendsTransitive(r, AddLine(r, lines[0]), AddLines(r, lines));
    }
  }

  /** A request becomes ready without a kind exactly by an END of an unknown operation before any BEGIN. */
  lemma ReadyWithoutKind(r: Req, line: string)
    requires Consistent(r) && r.state == Pending
    ensures AddLine(r, line).state == Ready && AddLine(r, line).kind == Unset <==>
            r.kind == Unset && HasKey(line, "END") && OperationKind(ArgText(line, "END")) == Unset
  {
    hide StrToL, Components, CStr;
  }

  /** Such a line: an END that names no operation. */
  lemma EndOfNothing()
    ensures AddLine(INIT, "END NOTHING").state == Ready && AddLine(INIT, "END NOTHING").kind == Unset
  {
    var line := "END NOTHING";
    assert HasKey(line, "END") && Arg(line, "END") == "NOTHING";
    assert |CStr("NOTHING", 0)| > 0 && CStr("NOTHING", 0)[0] == 'N';
    ReadyWithoutKind(INIT, line);
  }

  // ------------------------------------------------------------------- in place

  /** A request being received. */
  class Receiver {
    var state: State
    var kind: Kind
    var scode: int
    var index: nat
    var count: nat
    var transid: Option<string>
    var package: Option<string>
    var root: Option<string>
    var redpakid: Option<string>
    var files: set<Path>

    function View(): Req
      reads this
    {
      Req(state, kind, scode, index, count, transid, package, root, redpakid, files)
    }

    constructor ()
      ensures View() == INIT
    {
      state, kind, scode, index, count := Pending, Unset, 0, 0, 0;
      transid, package, root, redpakid, files := None, None, None, None, {};
    }

    method Fail(code: int) returns (rc: int)
      modifies this
      ensures View() == Error(old(View()), code) && rc == code
    {
      if scode == 0 {
        state := Failed;
        scode := code;
      }
      rc := code;
    }

    /** A number of the request: 1 to UINT_MAX, or the code of what is wrong with it. */
    method Number(arg: string, invalid: int, range: int) returns (val: int)
      requires invalid < 0 && range < 0
      ensures var (v, rest) := StrToL(arg);
              val == if rest != "" then invalid else if v < 1 || v > UINT_MAX then range else v
    {
      var (v, rest) := StrToL(arg);
      if rest != "" {
        return invalid;
      }
      if v < 1 || v > UINT_MAX {
        return range;
      }
      return v;
    }

    /** Receives one line. The request fails exactly when the code returned is negative. */
    method Receive(line: string) returns (rc: int)
      modifies this
      ensures View() == AddLine(old(View()), line)
      ensures rc <= 0
      ensures rc < 0 ==> View() == Error(old(View()), rc)
      ensures rc == 0 ==> old(state) == Pending && scode == old(scode) && state != Failed
    {
      hide StrToL, HasKey, OperationKind, Components, CStr;
      rc := 0;
      if state != Pending {
        rc := Fail(-1000);
      } else if HasKey(line, "BEGIN") {
        if kind != Unset {
          rc := Fail(-1001);
        } else if OperationKind(ArgText(line, "BEGIN")) == Unset {
          rc := Fail(-1002);
        } else {
          kind := OperationKind(ArgText(line, "BEGIN"));
        }
      } else if HasKey(line, "COUNT") {
        if count != 0 || kind == Unset {
          rc := Fail(-1003);
        } else {
          var val := Number(ArgText(line, "COUNT"), -1004, -1005);
          if val < 0 {
            rc := Fail(val);
          } else if index != 0 && val < index {
            rc := Fail(-1006);
          } else {
            count := val;
          }
        }
      } else if HasKey(line, "END") {
        if kind != OperationKind(ArgText(line, "END")) {
          rc := Fail(-1008);
        } else {
          state := Ready;
        }
      } else if HasKey(line, "FILE") {
        if kind == Unset {
          rc := Fail(-1009);
        } else {
          files := files + {Components(Arg(line, "FILE"))};
        }
      } else if HasKey(line, "INDEX") {
        if index != 0 || kind == Unset {
          rc := Fail(-1011);
        } else {
          var val := Number(ArgText(line, "INDEX"), -1012, -1013);
          if val < 0 {
            rc := Fail(val);
          } else if count != 0 && val > count {
            rc := Fail(-1014);
          } else {
            index := val;
          }
        }
      } else {
        rc := ReceiveName(line);
      }
    }

    /** The lines that carry a name. */
    method ReceiveName(line: string) returns (rc: int)
      requires state == Pending
      requires !HasKey(line, "BEGIN") && !HasKey(line, "COUNT") && !HasKey(line, "END")
      requires !HasKey(line, "FILE") && !HasKey(line, "INDEX")
      modifies this
      ensures View() == AddLine(old(View()), line)
      ensures rc <= 0
      ensures rc < 0 ==> View() == Error(old(View()), rc)
      ensures rc == 0 ==> scode == old(scode) && state != Failed
    {
      hide HasKey, CStr;
      rc := 0;
      if HasKey(line, "PACKAGE") {
        if package != None || kind == Unset {
          rc := Fail(-1015);
        } else {
          package := Some(ArgText(line, "PACKAGE"));
        }
      } else if HasKey(line, "REDPAKID") {
        if redpakid != None || kind == Unset {
          rc := Fail(-1017);
        } else {
          redpakid := Some(ArgText(line, "REDPAKID"));
        }
      } else if HasKey(line, "ROOT") {
        if root != None || kind == Unset {
          rc := Fail(-1018);
        } else {
          root := Some(ArgText(line, "ROOT"));
        }
      } else if HasKey(line, "TRANSID") {
        if transid != None || kind == Unset {
          rc := Fail(-1019);
        } else {
          transid := Some(ArgText(line, "TRANSID"));
        }
      } else if HasKey(line, "STATUS") {
        if kind != Unset || transid != None {
          rc := Fail(-1020);
        } else {
          transid := Some(ArgText(line, "STATUS"));
          kind := GetStatus;
          state := Ready;
        }
      } else {
        rc := Fail(-1021);
      }
    }
  }
}
