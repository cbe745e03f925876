/**
 The engine computes the meaning of the template: at the start of the tags of
 some nodes, its run is the run from after them with their rendering written.
 */
module Simulation {
  import opened Engine
  import opened Json
  import Names
  import opened Options
  import opened Template

  /** The tags `ts` stand at `pos`. */
  ghost predicate Stands(tpl: seq<Token>, pos: nat, ts: seq<Token>) {
    pos + |ts| <= |tpl| && tpl[pos..pos + |ts|] == ts
  }

  lemma StandsConcat(tpl: seq<Token>, pos: nat, a: seq<Token>, b: seq<Token>)
    requires Stands(tpl, pos, a + b)
    ensures Stands(tpl, pos, a) && Stands(tpl, pos + |a|, b)
  {
    assert tpl[pos..pos + |a|] == (a + b)[..|a|];
    assert tpl[pos + |a|..pos + |a| + |b|] == (a + b)[|a|..];
  }

  lemma StandsSection(tpl: seq<Token>, pos: nat, n: Node)
    requires n.Section? && Stands(tpl, pos, FlattenNode(n))
    ensures var k := |Flatten(n.body)|;
            && |FlattenNode(n)| == k + 2 && pos + k + 2 <= |tpl|
            && tpl[pos] == Open(n.inverted, n.name)
            && Stands(tpl, pos + 1, Flatten(n.body)) && tpl[pos + 1 + k] == Close(n.name)
  {
    StandsConcat(tpl, pos, [Open(n.inverted, n.name)] + Flatten(n.body), [Close(n.name)]);
    StandsConcat(tpl, pos, [Open(n.inverted, n.name)], Flatten(n.body));
    assert tpl[pos] == tpl[pos..pos + 1][0];
  }

  /** The same state `k` tags further, with `s` written. */
  ghost function Moved(st: State, k: nat, s: string): State {
    st.(pos := st.pos + k, out := st.out + s)
  }

  /** The state after the closing tag of the innermost section, which starts `k` tags ahead. */
  ghost function Closed(st: State, k: nat, s: string): State
    requires st.stack != [] && st.scopes != []
  {
    var f := st.stack[|st.stack| - 1];
    State(st.pos + k + 1, f.enabled, st.stack[..|st.stack| - 1],
          if f.entered then st.scopes[..|st.scopes| - 1] else st.scopes, st.out + s)
  }

  /** Both states lead to the same end. */
  ghost predicate Reaches(tpl: seq<Token>, st: State, st': State, text: Json -> string, w: nat) {
    Ok(|tpl|, st, w) && Ok(|tpl|, st', w) && Run(tpl, st, text, w) == Run(tpl, st', text, w)
  }

  ghost predicate TooDeep(tpl: seq<Token>, st: State, text: Json -> string, w: nat) {
    Ok(|tpl|, st, w) && Run(tpl, st, text, w).0 == ERROR_TOO_DEEP
  }

  lemma OneStep(tpl: seq<Token>, st: State, text: Json -> string, w: nat)
    requires Ok(|tpl|, st, w)
    ensures var o := Step(tpl, st, text);
            if o.Stopped? then Run(tpl, st, text, w).0 == o.rc else Reaches(tpl, st, o.st, text, w)
  {
    if Step(tpl, st, text).Running? { StepOk(tpl, st, text, w); }
  }

  /** What a turn does to the end result, case by case of the tag. */
  lemma OneTurn(tpl: seq<Token>, st: State, text: Json -> string, w: nat)
    requires Ok(|tpl|, st, w)
    ensures var o := Step(tpl, st, text);
            && (o.Stopped? ==> Run(tpl, st, text, w) == (o.rc, o.out))
            && (o.Running? ==> Reaches(tpl, st, o.st, text, w) && Weight(|tpl|, o.st, w) < Weight(|tpl|, st, w))
            && (st.pos == |tpl| ==> o == Stopped(if st.stack != [] then ERROR_UNEXPECTED_END else OK, st.out))
            && (st.pos < |tpl| && tpl[st.pos].Open? ==> o == StepOpen(st, tpl[st.pos].inverted, tpl[st.pos].name, text))
            && (st.pos < |tpl| && tpl[st.pos].Close? ==> o == StepClose(st, tpl[st.pos].name))
            && (st.pos < |tpl| && IsLeaf(tpl[st.pos]) ==>
                  o == Running(st.(pos := st.pos + 1,
                                   out := if st.enabled then st.out + LeafText(tpl[st.pos], Objects(st.scopes), text) else st.out)))
  {
    if Step(tpl, st, text).Running? { StepDecreases(tpl, st, text, w); }
  }

  /** Disabled tags write nothing; only their nesting matters. */
  lemma {:induction false} SkipNodes(tpl: seq<Token>, st: State, ns: seq<Node>, text: Json -> string, w: nat)
    requires Ok(|tpl|, st, w) && !st.enabled && WellFormed(ns) && Stands(tpl, st.pos, Flatten(ns))
    ensures match Skipped(ns, |st.stack|)
            case None => TooDeep(tpl, st, text, w)
            case Some(_) => Reaches(tpl, st, Moved(st, |Flatten(ns)|, ""), text, w)
    decreases ns, 0
  {
    hide Run, Entered, Names.FindOr;
    if ns == [] {
      assert Moved(st, 0, "") == st;
    } else {
      StandsConcat(tpl, st.pos, FlattenNode(ns[0]), Flatten(ns[1..]));
      var st2 := Moved(st, |FlattenNode(ns[0])|, "");
      SkipNode(tpl, st, ns[0], text, w);
      if Ok(|tpl|, st2, w) {
        SkipNodes(tpl, st2, ns[1..], text, w);
      }
      assert st.out + "" + "" == st.out + "";
    }
  }

  lemma {:induction false} SkipNode(tpl: seq<Token>, st: State, n: Node, text: Json -> string, w: nat)
    requires Ok(|tpl|, st, w) && !st.enabled && WellFormedNode(n) && Stands(tpl, st.pos, FlattenNode(n))
    ensures if NestingOf(n) > 0 && |st.stack| + NestingOf(n) > MAX_DEPTH then TooDeep(tpl, st, text, w)
            else Reaches(tpl, st, Moved(st, |FlattenNode(n)|, ""), text, w)
    decreases n, 2
  {
    hide Run, Names.FindOr;
    match n
    case Leaf(t) =>
      OneStep(tpl, st, text, w);
      assert tpl[st.pos] == tpl[st.pos..st.pos + 1][0];
      assert st.out + "" == st.out;
    case Section(inverted, name, body) =>
      StandsSection(tpl, st.pos, n);
      OpenStep(tpl, st, inverted, name, None, text, w);
      if |st.stack| < MAX_DEPTH {
        SkipBody(tpl, Opened(st, inverted, name, None), body, text, w);
        assert Opened(st, inverted, name, None).stack[..|st.stack|] == st.stack;
      }
  }

  /** A disabled body, up to and including its closing tag. */
  lemma {:induction false} SkipBody(tpl: seq<Token>, st: State, body: seq<Node>, text: Json -> string, w: nat)
    requires Ok(|tpl|, st, w) && !st.enabled && WellFormed(body) && st.stack != []
    requires Stands(tpl, st.pos, Flatten(body)) && st.pos + |Flatten(body)| < |tpl|
    requires tpl[st.pos + |Flatten(body)|] == Close(st.stack[|st.stack| - 1].name)
    ensures match Skipped(body, |st.stack|)
            case None => TooDeep(tpl, st, text, w)
            case Some(_) => Reaches(tpl, st, Closed(st, |Flatten(body)|, ""), text, w)
    decreases body, 1
  {
    hide Run, Entered, Names.FindOr;
    SkipNodes(tpl, st, body, text, w);
    if Skipped(body, |st.stack|).Some? {
      CloseStep(tpl, Moved(st, |Flatten(body)|, ""), text, w);
      assert st.out + "" + "" == st.out + "";
    }
  }

  /** The opening tag; `entered` is the scope an enabled section pushes. */
  lemma OpenStep(tpl: seq<Token>, st: State, inverted: bool, name: string, entered: Option<Scope>, text: Json -> string, w: nat)
    requires Ok(|tpl|, st, w) && st.pos < |tpl| && tpl[st.pos] == Open(inverted, name)
    requires entered == if st.enabled then ScopeFor(Names.FindOr(Objects(st.scopes), name, text)) else None
    ensures if |st.stack| == MAX_DEPTH || (st.enabled && |st.scopes| >= MAX_DEPTH) then TooDeep(tpl, st, text, w)
            else Reaches(tpl, st, Opened(st, inverted, name, entered), text, w)
  {
    OneStep(tpl, st, text, w);
  }

  /** The closing tag of a section that is not repeated. */
  lemma CloseStep(tpl: seq<Token>, st: State, text: Json -> string, w: nat)
    requires Ok(|tpl|, st, w) && st.pos < |tpl| && st.stack != []
    requires var f := st.stack[|st.stack| - 1];
             && tpl[st.pos] == Close(f.name)
             && (st.enabled && f.entered ==> NextScope(st.scopes[|st.scopes| - 1]) == None)
    ensures Reaches(tpl, st, Closed(st, 0, ""), text, w)
  {
    hide Run, Names.FindOr;
    OneStep(tpl, st, text, w);
    assert st.out + "" == st.out;
    assert FrameOk(st.stack[|st.stack| - 1], |tpl|);
  }

  /** The closing tag of a section with more items jumps back. */
  lemma AgainStep(tpl: seq<Token>, st: State, text: Json -> string, w: nat)
    requires Ok(|tpl|, st, w) && st.pos < |tpl| && st.stack != [] && st.enabled
    requires var f := st.stack[|st.stack| - 1];
             tpl[st.pos] == Close(f.name) && f.entered && NextScope(st.scopes[|st.scopes| - 1]).Some?
    ensures var last := |st.scopes| - 1;
            Reaches(tpl, st, st.(pos := st.stack[|st.stack| - 1].again,
                                 scopes := st.scopes[last := NextScope(st.scopes[last]).value]), text, w)
  {
    OneStep(tpl, st, text, w);
  }

  /** Enabled tags write their rendering. */
  lemma {:induction false} RunNodes(tpl: seq<Token>, st: State, ns: seq<Node>, text: Json -> string, w: nat)
    requires Ok(|tpl|, st, w) && st.enabled && WellFormed(ns) && Stands(tpl, st.pos, Flatten(ns))
    ensures match Render(ns, Objects(st.scopes), |st.stack|, text)
            case None => TooDeep(tpl, st, text, w)
            case Some(s) => Reaches(tpl, st, Moved(st, |Flatten(ns)|, s), text, w)
    decreases ns, 0, 0
  {
    hide Run, Entered, Names.FindOr;
    if ns == [] {
      assert Moved(st, 0, "") == st;
    } else {
      StandsConcat(tpl, st.pos, FlattenNode(ns[0]), Flatten(ns[1..]));
      RunNode(tpl, st, ns[0], text, w);
      var first := RenderNode(ns[0], Objects(st.scopes), |st.stack|, text);
      if first.Some? {
        var st2 := Moved(st, |FlattenNode(ns[0])|, first.value);
        RunNodes(tpl, st2, ns[1..], text, w);
        var rest := Render(ns[1..], Objects(st.scopes), |st.stack|, text);
        if rest.Some? {
          assert st.out + first.value + rest.value == st.out + (first.value + rest.value);
        }
      }
    }
  }

  lemma {:induction false} RunNode(tpl: seq<Token>, st: State, n: Node, text: Json -> string, w: nat)
    requires Ok(|tpl|, st, w) && st.enabled && WellFormedNode(n) && Stands(tpl, st.pos, FlattenNode(n))
    ensures match RenderNode(n, Objects(st.scopes), |st.stack|, text)
            case None => TooDeep(tpl, st, text, w)
            case Some(s) => Reaches(tpl, st, Moved(st, |FlattenNode(n)|, s), text, w)
    decreases n, 1, 0
  {
    hide Run, Entered, Names.FindOr;
    match n
    case Leaf(t) =>
      OneStep(tpl, st, text, w);
      assert tpl[st.pos] == tpl[st.pos..st.pos + 1][0];
    case Section(inverted, name, body) =>
      StandsSection(tpl, st.pos, n);
      var o := Names.FindOr(Objects(st.scopes), name, text);
      OpenStep(tpl, st, inverted, name, ScopeFor(o), text, w);
      if |st.stack| < MAX_DEPTH && |st.scopes| < MAX_DEPTH {
        RunSection(tpl, st, n, o, text, w);
      }
  }

  lemma ClosedOpened(st: State, inverted: bool, name: string, o: Json, k: nat, s: string)
    requires st.enabled && st.scopes != []
    ensures Closed(Opened(st, inverted, name, ScopeFor(o)), k, s) == Moved(st, k + 2, s)
  {
    var st1 := Opened(st, inverted, name, ScopeFor(o));
    assert st1.stack[..|st.stack|] == st.stack;
    if ScopeFor(o).Some? {
      assert st1.scopes[..|st.scopes|] == st.scopes;
    }
  }

  lemma OpenedScope(st: State, inverted: bool, name: string, o: Json)
    requires st.scopes != []
    ensures ScopeFor(o) == None <==> Items(o) == []
    ensures var st1 := Opened(st, inverted, name, ScopeFor(o));
            ScopeFor(o).Some? ==> st1.scopes[..|st1.scopes| - 1] == st.scopes
  {
  }

  /** The body of an enabled section, for the object `o` its name denotes. */
  lemma {:induction false} RunSection(tpl: seq<Token>, st: State, n: Node, o: Json, text: Json -> string, w: nat)
    requires n.Section? && WellFormed(n.body) && st.enabled && Ok(|tpl|, st, w)
    requires Ok(|tpl|, Opened(st, n.inverted, n.name, ScopeFor(o)), w)
    requires st.pos + |Flatten(n.body)| + 1 < |tpl| && Stands(tpl, st.pos + 1, Flatten(n.body))
    requires tpl[st.pos + 1 + |Flatten(n.body)|] == Close(n.name)
    ensures var st1 := Opened(st, n.inverted, n.name, ScopeFor(o));
            var d := |st.stack| + 1;
            var r := if n.inverted == (Items(o) == []) then
                       (if n.inverted then Render(n.body, Objects(st.scopes), d, text)
                        else RenderItems(n.body, Items(o), Objects(st.scopes), d, text))
                     else Skipped(n.body, d);
            match r
            case None => TooDeep(tpl, st1, text, w)
            case Some(s) => Reaches(tpl, st1, Moved(st, |Flatten(n.body)| + 2, s), text, w)
    decreases n, 0, 0
  {
    hide Run, Entered, Names.FindOr, Render, RenderItems, Flatten, WellFormed, Stands, FrameOk, Width;
    var st1 := Opened(st, n.inverted, n.name, ScopeFor(o));
    var k := |Flatten(n.body)|;
    OpenedScope(st, n.inverted, n.name, o);
    forall s ensures Closed(st1, k, s) == Moved(st, k + 2, s) { ClosedOpened(st, n.inverted, n.name, o, k, s); }
    if n.inverted != (Items(o) == []) {
      SkipBody(tpl, st1, n.body, text, w);
    } else if n.inverted {
      RunOnce(tpl, st1, n.body, text, w);
    } else {
      RunItems(tpl, st1, n.body, Items(o), text, w);
    }
  }

  /** An enabled body that is not repeated, up to and including its closing tag. */
  lemma {:induction false} RunOnce(tpl: seq<Token>, st: State, body: seq<Node>, text: Json -> string, w: nat)
    requires Ok(|tpl|, st, w) && st.enabled && WellFormed(body) && st.stack != []
    requires Stands(tpl, st.pos, Flatten(body)) && st.pos + |Flatten(body)| < |tpl|
    requires var f := st.stack[|st.stack| - 1];
             && tpl[st.pos + |Flatten(body)|] == Close(f.name)
             && (f.entered ==> NextScope(st.scopes[|st.scopes| - 1]) == None)
    ensures match Render(body, Objects(st.scopes), |st.stack|, text)
            case None => TooDeep(tpl, st, text, w)
            case Some(s) => Reaches(tpl, st, Closed(st, |Flatten(body)|, s), text, w)
    decreases body, 1, 0
  {
    hide Run, Entered, Names.FindOr;
    RunNodes(tpl, st, body, text, w);
    var r := Render(body, Objects(st.scopes), |st.stack|, text);
    if r.Some? {
      CloseStep(tpl, Moved(st, |Flatten(body)|, r.value), text, w);
      assert st.out + r.value + "" == st.out + r.value;
    }
  }

  lemma LastItem(body: seq<Node>, o: Json, outer: seq<Json>, depth: nat, text: Json -> string)
    requires outer != [] && WellFormed(body)
    ensures RenderItems(body, [o], outer, depth, text) == Render(body, outer + [o], depth, text)
  {
    assert [o][1..] == [];
    var first := Render(body, outer + [o], depth, text);
    if first.Some? { assert first.value + "" == first.value; }
  }

  lemma ItemsStep(body: seq<Node>, items: seq<Json>, outer: seq<Json>, depth: nat, text: Json -> string)
    requires outer != [] && WellFormed(body) && items != []
    ensures var first, rest := Render(body, outer + [items[0]], depth, text), RenderItems(body, items[1..], outer, depth, text);
            RenderItems(body, items, outer, depth, text) ==
            if first == None then None else if rest == None then None else Some(first.value + rest.value)
  {
  }

  /** A repeated body, from the item its scope stands on to the last. */
  lemma {:induction false} RunItems(tpl: seq<Token>, st: State, body: seq<Node>, items: seq<Json>, text: Json -> string, w: nat)
    requires Ok(|tpl|, st, w) && st.enabled && WellFormed(body) && st.stack != [] && |st.scopes| > 1
    requires Stands(tpl, st.pos, Flatten(body)) && st.pos + |Flatten(body)| < |tpl|
    requires var f := st.stack[|st.stack| - 1];
             f.entered && f.again == st.pos && tpl[st.pos + |Flatten(body)|] == Close(f.name)
    requires var s := st.scopes[|st.scopes| - 1];
             && |items| == s.count && s.obj == items[s.index]
             && (s.count > 1 ==> s.cont == Array(items))
    ensures var last := |st.scopes| - 1;
            match RenderItems(body, items[st.scopes[last].index..], Objects(st.scopes[..last]), |st.stack|, text)
            case None => TooDeep(tpl, st, text, w)
            case Some(s) => Reaches(tpl, st, Closed(st, |Flatten(body)|, s), text, w)
    decreases body, 2, st.scopes[|st.scopes| - 1].count - st.scopes[|st.scopes| - 1].index
  {
    hide Run, Entered, Names.FindOr, Render, RenderItems, Flatten, WellFormed, Stands, FrameOk, Width;
    var last := |st.scopes| - 1;
    var s := st.scopes[last];
    var outer := Objects(st.scopes[..last]);
    assert items[s.index..][0] == s.obj && items[s.index..][1..] == items[s.index + 1..];
    assert outer + [s.obj] == Objects(st.scopes);
    var first := Render(body, Objects(st.scopes), |st.stack|, text);
    ItemsStep(body, items[s.index..], outer, |st.stack|, text);
    if s.index + 1 == s.count {
      RunOnce(tpl, st, body, text, w);
      assert items[s.index..] == [s.obj];
      LastItem(body, s.obj, outer, |st.stack|, text);
    } else {
      RunNodes(tpl, st, body, text, w);
      if first.Some? {
        var st1 := Moved(st, |Flatten(body)|, first.value);
        AgainStep(tpl, st1, text, w);
        var st2 := st1.(pos := st.pos, scopes := st.scopes[last := NextScope(s).value]);
        assert st2.scopes[..last] == st.scopes[..last];
        RunItems(tpl, st2, body, items, text, w);
        var rest := RenderItems(body, items[s.index + 1..], outer, |st.stack|, text);
        if rest.Some? {
          assert st.out + first.value + rest.value == st.out + (first.value + rest.value);
        }
      }
    }
  }

  // ------------------------------------------------------------------- theorems

  /** Return code and output of the engine for a template and a JSON value. */
  ghost function Result(tpl: seq<Token>, root: Json, text: Json -> string): (int, string) {
    InitOk(|tpl|, root);
    Run(tpl, Init(root), text, Width(root))
  }

  /**
   For every template that nests properly, and every JSON value, the engine
   stops with exactly the recursive rendering, or too deep when that has none.
   */
  lemma RendersNested(ns: seq<Node>, root: Json, text: Json -> string)
    requires WellFormed(ns)
    ensures match Render(ns, [root], 0, text)
            case None => Result(Flatten(ns), root, text).0 == ERROR_TOO_DEEP
            case Some(s) => Result(Flatten(ns), root, text) == (OK, s)
  {
    var tpl := Flatten(ns);
    var st := Init(root);
    InitOk(|tpl|, root);
    assert Objects(st.scopes) == [root];
    assert tpl[0..|tpl|] == tpl;
    RunNodes(tpl, st, ns, text, Width(root));
    var r := Render(ns, [root], 0, text);
    if r.Some? {
      assert st.out + r.value == r.value;
    }
  }

  // -------------------------------------------------------------------- balance

  /** The open sections are those of the tags read, wherever the engine jumps. */
  ghost predicate Tracks(tpl: seq<Token>, st: State) {
    && st.pos <= |tpl|
    && OpenAfter([], tpl[..st.pos]) == Some(OpenNames(st.stack))
    && (forall i :: 0 <= i < |st.stack| ==> FrameTracks(tpl, st.stack, i))
  }

  ghost predicate FrameTracks(tpl: seq<Token>, stack: seq<Frame>, i: int)
    requires 0 <= i < |stack|
  {
    stack[i].again <= |tpl| && OpenAfter([], tpl[..stack[i].again]) == Some(OpenNames(stack[..i + 1]))
  }

  ghost function OpenNames(stack: seq<Frame>): (r: seq<string>)
    ensures |r| == |stack| && forall i :: 0 <= i < |stack| ==> r[i] == stack[i].name
  {
    seq(|stack|, i requires 0 <= i < |stack| => stack[i].name)
  }

  /** Reading one more tag. */
  lemma OpenAfterOne(tpl: seq<Token>, pos: nat)
    requires pos < |tpl|
    ensures OpenAfter([], tpl[..pos + 1]) ==
            match OpenAfter([], tpl[..pos])
            case None => None
            case Some(names) => OpenAfter(names, [tpl[pos]])
  {
    assert tpl[..pos + 1] == tpl[..pos] + [tpl[pos]];
    OpenAfterConcat([], tpl[..pos], [tpl[pos]]);
  }

  lemma TracksOpened(tpl: seq<Token>, st: State, inverted: bool, name: string, entered: Option<Scope>)
    requires Tracks(tpl, st) && st.pos < |tpl| && tpl[st.pos] == Open(inverted, name)
    ensures Tracks(tpl, Opened(st, inverted, name, entered))
  {
    hide OpenAfter;
    var st' := Opened(st, inverted, name, entered);
    OpenAfterOne(tpl, st.pos);
    OpenAfterOpen(OpenNames(st.stack), inverted, name);
    assert OpenNames(st'.stack) == OpenNames(st.stack) + [name];
    forall i | 0 <= i < |st'.stack|
      ensures FrameTracks(tpl, st'.stack, i)
    {
      if i < |st.stack| {
        assert FrameTracks(tpl, st.stack, i);
        assert st'.stack[..i + 1] == st.stack[..i + 1];
      } else {
        assert st'.stack[..i + 1] == st'.stack;
      }
    }
  }

  lemma OpenAfterOpen(names: seq<string>, inverted: bool, name: string)
    ensures OpenAfter(names, [Open(inverted, name)]) == Some(names + [name])
  {
  }

  lemma OpenAfterClose(names: seq<string>, name: string)
    requires names != [] && names[|names| - 1] == name
    ensures OpenAfter(names, [Close(name)]) == Some(names[..|names| - 1])
  {
  }

  lemma TracksClosed(tpl: seq<Token>, st: State, name: string)
    requires Tracks(tpl, st) && st.pos < |tpl| && tpl[st.pos] == Close(name) && st.scopes != []
    requires StepClose(st, name).Running?
    ensures Tracks(tpl, StepClose(st, name).st)
  {
    hide OpenAfter;
    var top := |st.stack| - 1;
    var st' := StepClose(st, name).st;
    assert FrameTracks(tpl, st.stack, top);
    if st'.stack == st.stack {
      assert st.stack[..top + 1] == st.stack;
    } else {
      OpenAfterOne(tpl, st.pos);
      var names := OpenNames(st.stack);
      assert names[..top] == OpenNames(st'.stack);
      OpenAfterClose(names, name);
      forall i | 0 <= i < top
        ensures FrameTracks(tpl, st'.stack, i)
      {
        assert FrameTracks(tpl, st.stack, i);
        assert st'.stack[..i + 1] == st.stack[..i + 1];
      }
    }
  }

  lemma StepTracks(tpl: seq<Token>, st: State, text: Json -> string)
    requires Tracks(tpl, st) && st.scopes != [] && Step(tpl, st, text).Running?
    ensures Tracks(tpl, Step(tpl, st, text).st)
  {
    match tpl[st.pos]
    case Open(inverted, name) =>
      var o := Names.FindOr(Objects(st.scopes), name, text);
      TracksOpened(tpl, st, inverted, name, if st.enabled then ScopeFor(o) else None);
    case Close(name) =>
      TracksClosed(tpl, st, name);
    case _ =>
      OpenAfterOne(tpl, st.pos);
  }

  /** The verdict on a template that depends on its tags only. */
  function Verdict(tpl: seq<Token>): int {
    match OpenAfter([], tpl)
    case None => ERROR_CLOSING
    case Some(names) => if names == [] then OK else ERROR_UNEXPECTED_END
  }

  /** No place of the template has as many open sections as the back end has scopes. */
  ghost predicate Shallow(tpl: seq<Token>) {
    forall p :: 0 <= p <= |tpl| ==> ShallowAt(tpl[..p])
  }

  ghost predicate ShallowAt(ts: seq<Token>) {
    match OpenAfter([], ts) case None => true case Some(names) => |names| < MAX_DEPTH
  }

  lemma EnteredBound(stack: seq<Frame>)
    ensures Entered(stack) <= |stack|
  {
  }

  /** A wrong closing tag, and it alone, is reported; `next` and `leave` never fail. */
  lemma StopAtClose(tpl: seq<Token>, st: State, name: string, w: nat)
    requires Ok(|tpl|, st, w) && Tracks(tpl, st) && st.pos < |tpl| && tpl[st.pos] == Close(name)
    requires StepClose(st, name).Stopped?
    ensures StepClose(st, name).rc == ERROR_CLOSING && OpenAfter([], tpl) == None
  {
    var names := OpenNames(st.stack);
    assert OpenAfter(names, [Close(name)]) == None;
    OpenAfterOne(tpl, st.pos);
    assert tpl == tpl[..st.pos + 1] + tpl[st.pos + 1..];
    OpenAfterConcat([], tpl[..st.pos + 1], tpl[st.pos + 1..]);
  }

  lemma StopAtOpen(tpl: seq<Token>, st: State, inverted: bool, name: string, w: nat)
    requires Ok(|tpl|, st, w) && Tracks(tpl, st) && st.pos < |tpl| && tpl[st.pos] == Open(inverted, name)
    requires |st.stack| == MAX_DEPTH || |st.scopes| >= MAX_DEPTH
    ensures !Shallow(tpl)
  {
    EnteredBound(st.stack);
    OpenAfterOne(tpl, st.pos);
    OpenAfterOpen(OpenNames(st.stack), inverted, name);
    assert !ShallowAt(tpl[..st.pos + 1]);
  }

  /** Stopping gives the verdict of the tags, or too deep. */
  lemma StopVerdict(tpl: seq<Token>, st: State, text: Json -> string, w: nat)
    requires Ok(|tpl|, st, w) && Tracks(tpl, st) && Step(tpl, st, text).Stopped?
    ensures var rc := Step(tpl, st, text).rc;
            && (rc == Verdict(tpl) || rc == ERROR_TOO_DEEP)
            && (Shallow(tpl) ==> rc == Verdict(tpl))
  {
    hide OpenAfter;
    if st.pos == |tpl| {
      assert tpl[..|tpl|] == tpl;
    } else {
      match tpl[st.pos]
      case Open(inverted, name) => StopAtOpen(tpl, st, inverted, name, w);
      case Close(name) => StopAtClose(tpl, st, name, w);
      case _ =>
    }
  }

  lemma {:induction false} RunVerdict(tpl: seq<Token>, st: State, text: Json -> string, w: nat)
    requires Ok(|tpl|, st, w) && Tracks(tpl, st)
    ensures var rc := Run(tpl, st, text, w).0;
            && (rc == Verdict(tpl) || rc == ERROR_TOO_DEEP)
            && (Shallow(tpl) ==> rc == Verdict(tpl))
    decreases Weight(|tpl|, st, w)
  {
    if Step(tpl, st, text).Stopped? {
      StopVerdict(tpl, st, text, w);
    } else {
      StepTracks(tpl, st, text);
      StepDecreases(tpl, st, text, w);
      RunVerdict(tpl, Step(tpl, st, text).st, text, w);
    }
  }

  /**
   Whatever the data, the engine returns OK only on balanced tags; on templates
   of less than 256 levels the return code depends on the tags alone.
   */
  lemma VerdictOfTags(tpl: seq<Token>, root: Json, text: Json -> string)
    ensures Result(tpl, root, text).0 == OK ==> Balanced(tpl)
    ensures Result(tpl, root, text).0 in {Verdict(tpl), ERROR_TOO_DEEP}
    ensures Shallow(tpl) ==> Result(tpl, root, text).0 == Verdict(tpl)
    ensures Verdict(tpl) == OK <==> Balanced(tpl)
  {
    InitOk(|tpl|, root);
    assert OpenNames([]) == [];
    assert tpl[..0] == [];
    RunVerdict(tpl, Init(root), text, Width(root));
  }
}
