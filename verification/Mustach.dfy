/**
 The mustach loop and its JSON back end with their real stacks: `Explorer` is
 the closure of src/units/apply-mustach.c, `Process` the loop of
 src/mustach/mustach.c. Both are proved to do what `Engine` says.
 */
module Mustach {
  import opened CStrings
  import opened Engine
  import opened Json
  import Names
  import NamesInPlace
  import opened Options
  import Simulation
  import opened Template

  /** Exploration state when instantiating a template. */
  class Explorer {
    const root: Json
    const text: Json -> string
    var depth: int
    const stack: array<Scope>

    ghost predicate Valid()
      reads this, stack
    {
      stack.Length == MAX_DEPTH && 0 <= depth < MAX_DEPTH
    }

    ghost function View(): (v: seq<Scope>)
      requires Valid()
      reads this, stack
      ensures v != []
    {
      stack[..depth + 1]
    }

    constructor (root: Json, text: Json -> string)
      ensures Valid() && fresh(stack) && View() == Init(root).scopes
      ensures this.root == root && this.text == text
    {
      this.root := root;
      this.text := text;
      depth := 0;
      stack := new Scope[MAX_DEPTH](i => Scope(root, Null, 0, 1));
    }

    method Start()
      requires Valid()
      modifies this, stack
      ensures Valid() && View() == Init(root).scopes
    {
      depth := 0;
      stack[0] := Scope(root, Null, 0, 1);
    }

    /** The objects of the scopes, outermost first. */
    method Scopes() returns (objs: seq<Json>)
      requires Valid()
      ensures objs == Objects(View())
    {
      objs := Objects(stack[..depth + 1]);
    }

    /** A private copy of a name, as `strdupa` makes it. */
    method Copy(name: string) returns (n: array<char>)
      requires NUL !in name
      ensures fresh(n) && n.Length == |name| + 1
      ensures Ends(n[..], 0) && CStr(n[..], 0) == name
    {
      n := new char[|name| + 1](i requires 0 <= i <= |name| => if i < |name| then name[i] else NUL);
      assert n[|name|] == NUL;
      CStrIs(n[..], 0, |name|);
      assert n[..][0..|name|] == name;
    }

    /** Text of the value of a name; nothing when it denotes nothing. */
    method Put(name: string, escape: bool) returns (out: string)
      requires Valid() && NUL !in name
      ensures out == LeafText(Token.Put(name, escape), Objects(View()), text)
    {
      var objs := Scopes();
      var n := Copy(name);
      var o := NamesInPlace.FindIn(objs, n, 0, text, n.Length);
      out := if o == Null then "" else if escape then Escaped(text(o)) else text(o);
    }

    /** Enters the object of a name: 1 when entered, 0 when not, negative when too deep. */
    method Enter(name: string) returns (rc: int)
      requires Valid() && NUL !in name
      modifies this, stack
      ensures rc == ERROR_TOO_DEEP <==> old(depth) == MAX_DEPTH - 1
      ensures rc != ERROR_TOO_DEEP ==>
                && Valid() && rc in {0, 1}
                && var s := ScopeFor(Names.FindOr(Objects(old(View())), name, text));
                && (rc == 1 <==> s.Some?)
                && View() == if s.Some? then old(View()) + [s.value] else old(View())
    {
      ghost var v := View();
      var objs := Scopes();
      var n := Copy(name);
      var o := NamesInPlace.FindOr(objs, n, 0, text);
      depth := depth + 1;
      if depth >= MAX_DEPTH {
        return ERROR_TOO_DEEP;
      }
      if o.Array? {
        if |o.items| == 0 {
          depth := depth - 1;
          return 0;
        }
        stack[depth] := Scope(o.items[0], o, 0, |o.items|);
      } else if o.Object? || Truthy(o) {
        stack[depth] := Scope(o, Null, 0, 1);
      } else {
        depth := depth - 1;
        return 0;
      }
      assert View() == v + [stack[depth]];
      return 1;
    }

    /** Moves the innermost scope to its next item: 1 when there is one. */
    method Next() returns (rc: int)
      requires Valid()
      modifies stack
      ensures Valid()
      ensures rc == ERROR_CLOSING <==> depth == 0
      ensures depth > 0 ==>
                && rc in {0, 1}
                && (rc == 1 <==> NextScope(old(View())[depth]).Some?)
                && (rc == 1 ==> View() == old(View())[depth := NextScope(old(View())[depth]).value])
                && View()[..depth] == old(View())[..depth]
    {
      if depth <= 0 {
        return ERROR_CLOSING;
      }
      var s := stack[depth];
      stack[depth] := s.(index := s.index + 1);
      if s.index + 1 >= s.count {
        return 0;
      }
      var o := if s.cont.Array? && s.index + 1 < |s.cont.items| then s.cont.items[s.index + 1] else Null;
      stack[depth] := stack[depth].(obj := o);
      return 1;
    }

    method Leave() returns (rc: int)
      requires Valid()
      modifies this
      ensures Valid()
      ensures rc == (if old(depth) == 0 then ERROR_CLOSING else 0)
      ensures old(depth) > 0 ==> View() == old(View())[..old(depth)]
      ensures old(depth) == 0 ==> View() == old(View())
    {
      if depth <= 0 {
        return ERROR_CLOSING;
      }
      depth := depth - 1;
      return 0;
    }
  }

  /** Names in a template are C strings. */
  ghost predicate CNames(tpl: seq<Token>) {
    forall i :: 0 <= i < |tpl| ==>
      match tpl[i]
      case Put(name, _) => NUL !in name
      case Open(_, name) => NUL !in name
      case _ => true
  }

  /** The opening tag. */
  method OpenSection(e: Explorer, frames: array<Frame>, depth0: nat, enabled0: bool, pos: nat, inverted: bool, name: string, ghost st: State)
    returns (rc: int, depth: nat, enabled: bool)
    requires e.Valid() && frames.Length == MAX_DEPTH && depth0 <= MAX_DEPTH && NUL !in name
    requires st.pos == pos && st.enabled == enabled0 && st.stack == frames[..depth0] && st.scopes == e.View()
    modifies e, e.stack, frames
    ensures var o := StepOpen(st, inverted, name, e.text);
            && (rc < 0 <==> o.Stopped?) && (o.Stopped? ==> rc == o.rc)
            && (o.Running? ==>
                  && e.Valid() && depth <= MAX_DEPTH
                  && o.st == State(pos + 1, enabled, frames[..depth], e.View(), st.out))
  {
    depth, enabled, rc := depth0, enabled0, 0;
    if depth == MAX_DEPTH {
      return ERROR_TOO_DEEP, depth, enabled;
    }
    if enabled {
      rc := e.Enter(name);
      if rc < 0 {
        return;
      }
    }
    ghost var before := frames[..depth];
    frames[depth] := Frame(name, pos + 1, enabled, rc != 0);
    assert frames[..depth + 1] == before + [frames[depth]];
    if !inverted == (rc == 0) {
      enabled := false;
    }
    depth := depth + 1;
  }

  /** The closing tag. */
  method CloseSection(e: Explorer, frames: array<Frame>, depth0: nat, enabled0: bool, pos0: nat, name: string, ghost st: State)
    returns (rc: int, depth: nat, enabled: bool, pos: nat)
    requires e.Valid() && frames.Length == MAX_DEPTH && depth0 <= MAX_DEPTH
    requires st.pos == pos0 && st.enabled == enabled0 && st.stack == frames[..depth0] && st.scopes == e.View()
    requires forall i :: 0 <= i < depth0 ==> frames[i].entered ==> frames[i].enabled
    modifies e, e.stack
    ensures var o := StepClose(st, name);
            && (rc < 0 <==> o.Stopped?) && (o.Stopped? ==> rc == o.rc)
            && (o.Running? ==>
                  && e.Valid() && depth <= MAX_DEPTH
                  && o.st == State(pos, enabled, frames[..depth], e.View(), st.out))
  {
    depth, enabled, pos, rc := depth0, enabled0, pos0 + 1, 0;
    if depth == 0 || frames[depth - 1].name != name {
      return ERROR_CLOSING, depth, enabled, pos;
    }
    var f := frames[depth - 1];
    ghost var v := e.View();
    if enabled && f.entered {
      rc := e.Next();
    }
    if rc < 0 {
      return;
    }
    if rc != 0 {
      pos := f.again;
    } else {
      depth := depth - 1;
      assert frames[..depth] == st.stack[..depth];
      enabled := f.enabled;
      if enabled && f.entered {
        ghost var last := |v| - 1;
        assert e.View()[..last] == v[..last];
        var left := e.Leave();
        assert last > 0 ==> e.View() == v[..last];
      }
    }
    rc := 0;
  }

  lemma OpenStops(st: State, inverted: bool, name: string, text: Json -> string)
    requires st.scopes != []
    ensures var o := StepOpen(st, inverted, name, text); o.Stopped? ==> o.out == st.out
  {
  }

  lemma CloseStops(st: State, name: string)
    requires st.scopes != []
    ensures var o := StepClose(st, name); o.Stopped? ==> o.out == st.out
  {
  }

  /**
   The loop over the template. It computes `Simulation.Result`, so everything
   proved there holds of it, and on success every scope entered was left.
   */
  method Process(tpl: seq<Token>, e: Explorer) returns (rc: int, out: string)
    requires e.Valid() && e.View() == Init(e.root).scopes && CNames(tpl)
    modifies e, e.stack
    ensures (rc, out) == Simulation.Result(tpl, e.root, e.text)
    ensures rc == OK ==> e.Valid() && e.depth == 0
  {
    hide Run, Step, StepOpen, StepClose, Names.FindOr, Width, Weight, ScopeOk;
    var frames := new Frame[MAX_DEPTH](i => Frame("", 0, false, false));
    var pos: nat, depth: nat, enabled := 0, 0, true;
    out := "";
    ghost var st := Init(e.root);
    ghost var w := Width(e.root);
    InitOk(|tpl|, e.root);
    while true
      invariant pos <= |tpl| && depth <= MAX_DEPTH && e.Valid()
      invariant st == State(pos, enabled, frames[..depth], e.View(), out)
      invariant Ok(|tpl|, st, w) && Run(tpl, st, e.text, w) == Simulation.Result(tpl, e.root, e.text)
      decreases Weight(|tpl|, st, w)
    {
      Simulation.OneTurn(tpl, st, e.text, w);
      if pos == |tpl| {
        rc := if depth != 0 then ERROR_UNEXPECTED_END else OK;
        return;
      }
      ghost var o := Step(tpl, st, e.text);
      match tpl[pos] {
        case Open(inverted, name) =>
          OpenStops(st, inverted, name, e.text);
          rc, depth, enabled := OpenSection(e, frames, depth, enabled, pos, inverted, name, st);
          if rc < 0 {
            return;
          }
          pos := pos + 1;
        case Close(name) =>
          CloseStops(st, name);
          assert forall i :: 0 <= i < depth ==> FrameOk(st.stack[i], |tpl|) && st.stack[i] == frames[i];
          rc, depth, enabled, pos := CloseSection(e, frames, depth, enabled, pos, name, st);
          if rc < 0 {
            return;
          }
        case Put(name, escape) =>
          if enabled {
            var s := e.Put(name, escape);
            out := out + s;
          }
          pos := pos + 1;
        case Text(s) =>
          if enabled {
            out := out + s;
          }
          pos := pos + 1;
        case Comment =>
          pos := pos + 1;
      }
      st := o.st;
    }
  }
}
