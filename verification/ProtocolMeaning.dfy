/**
 The installer protocol in its own words: the text of a message, the numbers of
 what is refused, and the messages of a transaction.
 */
module ProtocolMeaning {
  import opened CStrings
  import opened Options
  import opened Paths
  import P = Plugin
  import opened Request
  import opened Wire

  // ------------------------------------------------------------------- messages

  /** The word of an operation. */
  lemma Words()
    ensures Word(Add) == "ADD" && Word(Remove) == "REMOVE" && Word(CheckAdd) == "CHECK-ADD" && Word(CheckRemove) == "CHECK-REMOVE"
  {
  }

  lemma NumbersWritten()
    ensures Decimal(0) == "0" && Decimal(7) == "7" && Decimal(42) == "42" && Decimal(1980) == "1980"
  {
    assert Decimal(1) == "1" && Decimal(4) == "4";
    assert Decimal(19) == "19";
    assert Decimal(198) == "198";
  }

  /** The shortest message. */
  lemma ShortMessage(package: string)
    ensures Lines(Message(Add, package, 7, 42, None, None, None, [])) ==
            ["BEGIN ADD", "PACKAGE " + package, "INDEX 7", "COUNT 42", "END ADD"]
  {
    hide Text, Decimal;
    NumbersWritten();
    var m := Message(Add, package, 7, 42, None, None, None, []);
    assert Line("BEGIN", "ADD") == "BEGIN ADD" && Line("END", "ADD") == "END ADD";
    assert Line("PACKAGE", package) == "PACKAGE " + package && Line("INDEX", "7") == "INDEX 7" && Line("COUNT", "42") == "COUNT 42";
    assert Lines(m) == ["BEGIN ADD", "PACKAGE " + package, "INDEX 7", "COUNT 42", "END ADD"];
  }

  /** Each line of a message is ended by a newline. */
  lemma FiveLines(a: string, b: string, c: string, d: string, e: string)
    ensures Text([a, b, c, d, e]) == a + "\n" + b + "\n" + c + "\n" + d + "\n" + e + "\n"
  {
    hide Text;
    assert [a, b, c, d, e] == [a] + [b] + [c] + [d] + [e];
    TextConcat([a] + [b] + [c] + [d], [e]);
    TextConcat([a] + [b] + [c], [d]);
    TextConcat([a] + [b], [c]);
    TextConcat([a], [b]);
    TextOne(a);
    TextOne(b);
    TextOne(c);
    TextOne(d);
    TextOne(e);
  }

  /** The lines that may follow the opening, in this order: root directory, transaction, container and files. */
  lemma DetailLines(m: Message, root: string, transid: string, redpakid: string, a: string, b: string)
    requires m.root == Some(root) && m.transid == Some(transid) && m.redpakid == Some(redpakid) && m.files == [a, b]
    ensures Lines(m)[4..] == ["ROOT " + root, "TRANSID " + transid, "REDPAKID " + redpakid, "FILE " + a, "FILE " + b, "END " + Word(m.op)]
  {
    hide Decimal, Word;
    assert Line("ROOT", root) == "ROOT " + root && Line("TRANSID", transid) == "TRANSID " + transid;
    assert Line("REDPAKID", redpakid) == "REDPAKID " + redpakid && Line("END", Word(m.op)) == "END " + Word(m.op);
    assert Line("FILE", a) == "FILE " + a && Line("FILE", b) == "FILE " + b;
    assert m.files[..1] == [a] && [a][..0] == [];
    assert FileLines([a]) == FileLines([]) + ["FILE " + a];
    assert FileLines(m.files) == ["FILE " + a, "FILE " + b];
    assert Details(m) == ["ROOT " + root, "TRANSID " + transid, "REDPAKID " + redpakid];
  }

  // -------------------------------------------------------------------- refusals

  /** Whatever comes before BEGIN is refused, each with its number. */
  lemma RefusedEarly(val: string)
    ensures AddLine(INIT, Line("COUNT", val)).scode == -1003
    ensures AddLine(INIT, Line("FILE", val)).scode == -1009
    ensures AddLine(INIT, Line("INDEX", val)).scode == -1011
    ensures AddLine(INIT, Line("PACKAGE", val)).scode == -1015
    ensures AddLine(INIT, Line("REDPAKID", val)).scode == -1017
    ensures AddLine(INIT, Line("ROOT", val)).scode == -1018
    ensures AddLine(INIT, Line("TRANSID", val)).scode == -1019
  {
    hide HasKey, Line, ArgText, Arg, StrToL, OperationKind, Components;
    OnlyOwnKeys("COUNT", val);
    OnlyOwnKeys("FILE", val);
    OnlyOwnKeys("INDEX", val);
    OnlyOwnKeys("PACKAGE", val);
    OnlyOwnKeys("REDPAKID", val);
    OnlyOwnKeys("ROOT", val);
    OnlyOwnKeys("TRANSID", val);
  }

  /** What is set cannot be set again. */
  lemma RefusedTwice(r: Req, val: string)
    requires Started(r) && r.scode == 0
    ensures AddLine(r, Line("BEGIN", val)).scode == -1001
    ensures r.count != 0 ==> AddLine(r, Line("COUNT", val)).scode == -1003
    ensures r.index != 0 ==> AddLine(r, Line("INDEX", val)).scode == -1011
    ensures r.package.Some? ==> AddLine(r, Line("PACKAGE", val)).scode == -1015
    ensures r.redpakid.Some? ==> AddLine(r, Line("REDPAKID", val)).scode == -1017
    ensures r.root.Some? ==> AddLine(r, Line("ROOT", val)).scode == -1018
    ensures r.transid.Some? ==> AddLine(r, Line("TRANSID", val)).scode == -1019
  {
    hide HasKey, Line, ArgText, Arg, StrToL, OperationKind, Components;
    OnlyOwnKeys("BEGIN", val);
    OnlyOwnKeys("COUNT", val);
    OnlyOwnKeys("INDEX", val);
    OnlyOwnKeys("PACKAGE", val);
    OnlyOwnKeys("REDPAKID", val);
    OnlyOwnKeys("ROOT", val);
    OnlyOwnKeys("TRANSID", val);
  }

  /** Arguments that are no numbers. */
  lemma RefusedTexts(r: Req, text: string)
    requires Started(r) && r.scode == 0
    requires text != "" && NUL !in text && !IsDigit(text[0]) && !IsSpace(text[0]) && text[0] !in {'+', '-'}
    ensures r.count == 0 ==> AddLine(r, Line("COUNT", text)).scode == -1004
    ensures r.index == 0 ==> AddLine(r, Line("INDEX", text)).scode == -1012
  {
    assert StrToL(text) == (0, text);
    hide HasKey, Line, ArgText, Arg, StrToL, OperationKind, Components;
    OnlyOwnKeys("COUNT", text);
    OnlyOwnKeys("INDEX", text);
    OwnKey("COUNT", text);
    OwnKey("INDEX", text);
  }

  /** Numbers out of range, and an index above the count. */
  lemma RefusedNumbers(r: Req, n: nat)
    requires Started(r) && r.scode == 0 && n <= LONG_MAX
    ensures r.count == 0 && (n == 0 || n > 0xffff_ffff) ==> AddLine(r, Line("COUNT", Decimal(n))).scode == -1005
    ensures r.index == 0 && (n == 0 || n > 0xffff_ffff) ==> AddLine(r, Line("INDEX", Decimal(n))).scode == -1013
    ensures r.count == 0 && 0 < n < r.index && n <= 0xffff_ffff ==> AddLine(r, Line("COUNT", Decimal(n))).scode == -1006
    ensures r.index == 0 && 0 < r.count < n <= 0xffff_ffff ==> AddLine(r, Line("INDEX", Decimal(n))).scode == -1014
  {
    hide HasKey, Line, ArgText, Arg, StrToL, OperationKind, Components, Decimal;
    DecimalRead(n);
    DecimalDigits(n);
    assert NUL !in Decimal(n);
    OnlyOwnKeys("COUNT", Decimal(n));
    OnlyOwnKeys("INDEX", Decimal(n));
    OwnKey("COUNT", Decimal(n));
    OwnKey("INDEX", Decimal(n));
  }

  /** Operations that are none. */
  lemma RefusedWords(r: Req, word: string)
    requires r.state == Pending && r.scode == 0 && NUL !in word && word !in {"ADD", "REMOVE", "CHECK-ADD", "CHECK-REMOVE"}
    ensures r.kind == Unset ==> AddLine(r, Line("BEGIN", word)).scode == -1002
    ensures r.kind != Unset ==> AddLine(r, Line("END", word)).scode == -1008
  {
    assert OperationKind(word) == Unset;
    hide HasKey, Line, ArgText, Arg, StrToL, OperationKind, Components;
    OnlyOwnKeys("BEGIN", word);
    OnlyOwnKeys("END", word);
    OwnKey("BEGIN", word);
    OwnKey("END", word);
  }

  /** An END that is not that of its BEGIN. */
  lemma RefusedEnd(r: Req, op: Operation, other: Operation)
    requires r.state == Pending && r.scode == 0 && r.kind == KindOf(op) && op != other
    ensures AddLine(r, Line("END", Word(other))).scode == -1008
  {
    assert OperationKind(Word(other)) == KindOf(other) && NUL !in Word(other) && KindOf(op) != KindOf(other);
    hide HasKey, Line, ArgText, Arg, StrToL, OperationKind, Components, Word;
    OnlyOwnKeys("END", Word(other));
    OwnKey("END", Word(other));
  }

  /** A line after the end, and a line of no kind. */
  lemma RefusedLines(r: Req, line: string)
    requires r.state == Pending && r.scode == 0
    ensures AddLine(r.(state := Ready), line).scode == -1000
    ensures (forall key :: KnownKey(key) ==> !HasKey(line, key)) && !HasKey(line, "STATUS") ==> AddLine(r, line).scode == -1021
  {
    hide HasKey, ArgText, Arg, StrToL, OperationKind, Components;
  }

  // ---------------------------------------------------------------- transactions

  lemma {:induction false} ListedHas(elements: seq<P.Element>, e: P.Element)
    requires e in elements && e.way.Some?
    ensures e in P.Listed(elements)
    decreases |elements|
  {
    var n := |elements| - 1;
    if e != elements[n] { ListedHas(elements[..n], e); }
  }

  lemma {:induction false} WithWayHas(es: seq<P.Element>, way: P.Way, e: P.Element)
    requires e in es && e.way == Some(way)
    ensures e in P.WithWay(es, way)
    decreases |es|
  {
    var n := |es| - 1;
    if e != es[n] { WithWayHas(es[..n], way, e); }
  }

  /** Every element that is added or removed has its message: operation, name and files, with the root and the identifiers. */
  lemma EachElementTold(elements: seq<P.Element>, check: bool, env: P.Environment, e: P.Element)
    requires e in elements && e.way.Some?
    ensures var es := P.Listed(elements);
            exists m :: m in P.Removals(es, check, env) + P.Additions(es, check, env)
              && m.op == (if e.way == Some(P.Adding) then (if check then CheckAdd else Add) else (if check then CheckRemove else Remove))
              && m.package == e.name && m.files == e.files
              && m.root == env.root && m.transid == env.transid && m.redpakid == env.redpakid
  {
    hide P.Listed, P.WithWay;
    var es := P.Listed(elements);
    ListedHas(elements, e);
    WithWayHas(es, e.way.value, e);
    var some := P.WithWay(es, e.way.value);
    var i :| 0 <= i < |some| && some[i] == e;
    if e.way.value == P.Removing {
      var m := P.Removals(es, check, env)[i];
      assert m in P.Removals(es, check, env);
    } else {
      assert e.way.value == P.Adding && some == P.WithWay(es, P.Adding);
      var m := P.Additions(es, check, env)[i];
      assert m in P.Additions(es, check, env);
    }
  }

  /** An addition, something else and a removal: the removal is told first, one of two, then the addition. */
  lemma TransactionExample(a: P.Element, other: P.Element, r: P.Element, env: P.Environment)
    requires a.way == Some(P.Adding) && other.way == None && r.way == Some(P.Removing)
    ensures P.Planned(P.Listed([a, other, r]), false, false, true, false, env) ==
            [Message(Remove, r.name, 1, 2, env.root, env.transid, env.redpakid, r.files),
             Message(Add, a.name, 2, 2, env.root, env.transid, env.redpakid, a.files)]
    ensures P.Planned(P.Listed([a, other, r]), false, true, true, true, env) == []
    ensures P.Planned(P.Listed([a, other, r]), false, false, false, false, env) ==
            [Message(Remove, r.name, 1, 2, env.root, env.transid, env.redpakid, r.files)]
    ensures P.Planned(P.Listed([a, other, r]), true, true, true, true, env) ==
            [Message(CheckRemove, r.name, 1, 2, env.root, env.transid, env.redpakid, r.files),
             Message(CheckAdd, a.name, 2, 2, env.root, env.transid, env.redpakid, a.files)]
  {
    var es := [a, other, r];
    assert es[..2] == [a, other] && [a, other][..1] == [a] && [a][..0] == [];
    assert P.Listed([a]) == [a] && P.Listed([a, other]) == [a] && P.Listed(es) == [r, a];
    assert [r, a][..1] == [r] && [r][..0] == [];
    assert P.WithWay([r], P.Removing) == [r] && P.WithWay([r], P.Adding) == [];
    assert P.WithWay([r, a], P.Removing) == [r] && P.WithWay([r, a], P.Adding) == [a];
  }
}
