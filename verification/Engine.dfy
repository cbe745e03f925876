/**
 The engine of src/mustach/mustach.c as a machine: one position in the flat
 template, a stack of open sections, and the stack of scopes kept by the back
 end of src/units/apply-mustach.c. A section is repeated by jumping back to
 the position after its opening tag.

 `Step` is one turn of the loop, `Run` the whole loop. The machine always
 stops, and computes the recursive `Render` of the template.
 */
module Engine {
  import opened Json
  import Names
  import opened Options
  import opened Template

  /** An open section: where its body starts, and how it was opened. */
  datatype Frame = Frame(name: string, again: nat, enabled: bool, entered: bool)

  /** A scope of the back end: `index` of `count` in the container `cont`. */
  datatype Scope = Scope(obj: Json, cont: Json, index: nat, count: nat)

  datatype State = State(pos: nat, enabled: bool, stack: seq<Frame>, scopes: seq<Scope>, out: string)

  datatype Outcome = Running(st: State) | Stopped(rc: int, out: string)

  function Objects(scopes: seq<Scope>): (r: seq<Json>)
    ensures |r| == |scopes|
    ensures forall i :: 0 <= i < |scopes| ==> r[i] == scopes[i].obj
  {
    seq(|scopes|, i requires 0 <= i < |scopes| => scopes[i].obj)
  }

  function Init(root: Json): State {
    State(0, true, [], [Scope(root, Null, 0, 1)], "")
  }

  // ------------------------------------------------------------------- back end

  /** The scope `enter` pushes for an object, if it is to be entered. */
  function ScopeFor(o: Json): Option<Scope> {
    match o
    case Array(items) => if items == [] then None else Some(Scope(items[0], o, 0, |items|))
    case Object(_) => Some(Scope(o, Null, 0, 1))
    case _ => if Truthy(o) then Some(Scope(o, Null, 0, 1)) else None
  }

  /** The innermost scope moved to its next item, None when there is no more. */
  function NextScope(s: Scope): Option<Scope> {
    if s.index + 1 >= s.count then None
    else if s.cont.Array? && s.index + 1 < |s.cont.items| then
      Some(s.(obj := s.cont.items[s.index + 1], index := s.index + 1))
    else Some(s.(obj := Null, index := s.index + 1))
  }

  // --------------------------------------------------------------------- engine

  /** One tag or text of the template. */
  function Step(tpl: seq<Token>, st: State, text: Json -> string): Outcome
    requires st.scopes != [] && st.pos <= |tpl|
  {
    if st.pos == |tpl| then
      Stopped(if st.stack != [] then ERROR_UNEXPECTED_END else OK, st.out)
    else match tpl[st.pos]
      case Open(inverted, name) => StepOpen(st, inverted, name, text)
      case Close(name) => StepClose(st, name)
      case leaf =>
        Running(st.(pos := st.pos + 1,
                    out := if st.enabled then st.out + LeafText(leaf, Objects(st.scopes), text) else st.out))
  }

  function StepOpen(st: State, inverted: bool, name: string, text: Json -> string): Outcome
    requires st.scopes != []
  {
    if |st.stack| == MAX_DEPTH || (st.enabled && |st.scopes| >= MAX_DEPTH) then Stopped(ERROR_TOO_DEEP, st.out)
    else
      var o := Names.FindOr(Objects(st.scopes), name, text);
      Running(Opened(st, inverted, name, if st.enabled then ScopeFor(o) else None))
  }

  /** The state in the body of a section; `entered` is the scope pushed for it. */
  function Opened(st: State, inverted: bool, name: string, entered: Option<Scope>): State {
    st.(pos := st.pos + 1,
        stack := st.stack + [Frame(name, st.pos + 1, st.enabled, entered.Some?)],
        enabled := st.enabled && (inverted == (entered == None)),
        scopes := if entered.Some? then st.scopes + [entered.value] else st.scopes)
  }

  function StepClose(st: State, name: string): Outcome
    requires st.scopes != []
  {
    if st.stack == [] || st.stack[|st.stack| - 1].name != name then Stopped(ERROR_CLOSING, st.out)
    else
      var f := st.stack[|st.stack| - 1];
      var last := |st.scopes| - 1;
      if st.enabled && f.entered && last == 0 then Stopped(ERROR_CLOSING, st.out)
      else
        var next := if st.enabled && f.entered then NextScope(st.scopes[last]) else None;
        if next.Some? then
          Running(st.(pos := f.again, scopes := st.scopes[last := next.value]))
        else
          Running(st.(pos := st.pos + 1,
                      enabled := f.enabled,
                      stack := st.stack[..|st.stack| - 1],
                      scopes := if f.enabled && f.entered && last > 0 then st.scopes[..last] else st.scopes))
  }

  // ------------------------------------------------------------------ invariant

  /** Number of open sections that were entered. */
  ghost function Entered(stack: seq<Frame>): nat {
    if stack == [] then 0
    else Entered(stack[..|stack| - 1]) + if stack[|stack| - 1].entered then 1 else 0
  }

  ghost predicate ScopeOk(s: Scope, w: nat) {
    && Width(s.obj) <= w && Width(s.cont) <= w
    && s.index < s.count <= w + 1
    && (s.count > 1 ==> s.cont.Array? && |s.cont.items| == s.count)
  }

  ghost predicate FrameOk(f: Frame, n: nat) {
    f.again <= n && (f.entered ==> f.enabled)
  }

  /** Scopes and entered sections correspond; `w` bounds the arrays of the data. */
  ghost predicate Ok(n: nat, st: State, w: nat) {
    && st.pos <= n && |st.stack| <= MAX_DEPTH
    && |st.scopes| == 1 + Entered(st.stack)
    && (forall i :: 0 <= i < |st.stack| ==> FrameOk(st.stack[i], n))
    && (forall i :: 0 <= i < |st.scopes| ==> ScopeOk(st.scopes[i], w))
  }

  lemma InitOk(n: nat, root: Json)
    ensures Ok(n, Init(root), Width(root))
  {
  }

  lemma ScopeForOk(o: Json, w: nat)
    requires Width(o) <= w && ScopeFor(o).Some?
    ensures ScopeOk(ScopeFor(o).value, w)
  {
    if o.Array? { ItemWidth(o.items, 0); }
  }

  lemma NextScopeOk(s: Scope, w: nat)
    requires ScopeOk(s, w) && NextScope(s).Some?
    ensures ScopeOk(NextScope(s).value, w)
    ensures NextScope(s).value.obj == s.cont.items[s.index + 1]
  {
    ItemWidth(s.cont.items, s.index + 1);
  }

  /** Opening a section keeps scopes and entered sections in step. */
  lemma OpenedOk(n: nat, st: State, inverted: bool, name: string, entered: Option<Scope>, w: nat)
    requires Ok(n, st, w) && st.pos < n && |st.stack| < MAX_DEPTH
    requires entered.Some? ==> st.enabled && ScopeOk(entered.value, w)
    ensures Ok(n, Opened(st, inverted, name, entered), w)
  {
    var stack := st.stack + [Frame(name, st.pos + 1, st.enabled, entered.Some?)];
    assert stack[..|stack| - 1] == st.stack;
  }

  /** What an enabled section enters fits the data. */
  lemma EnteredOk(st: State, n: nat, name: string, text: Json -> string, w: nat)
    requires Ok(n, st, w)
    ensures var e := ScopeFor(Names.FindOr(Objects(st.scopes), name, text));
            e.Some? ==> ScopeOk(e.value, w)
  {
    var o := Names.FindOr(Objects(st.scopes), name, text);
    Names.FindOrWidth(Objects(st.scopes), name, text, w);
    if ScopeFor(o).Some? { ScopeForOk(o, w); }
  }

  /** So does closing one. */
  lemma StepCloseOk(n: nat, st: State, name: string, w: nat)
    requires Ok(n, st, w) && st.pos < n && StepClose(st, name).Running?
    ensures Ok(n, StepClose(st, name).st, w)
  {
    var f := st.stack[|st.stack| - 1];
    if f.entered {
      var s := st.scopes[|st.scopes| - 1];
      if NextScope(s).Some? { NextScopeOk(s, w); }
    }
  }

  /** Every turn keeps scopes and entered sections in step. */
  lemma StepOk(tpl: seq<Token>, st: State, text: Json -> string, w: nat)
    requires Ok(|tpl|, st, w) && Step(tpl, st, text).Running?
    ensures Ok(|tpl|, Step(tpl, st, text).st, w)
  {
    match tpl[st.pos]
    case Open(inverted, name) =>
      EnteredOk(st, |tpl|, name, text, w);
      var o := Names.FindOr(Objects(st.scopes), name, text);
      OpenedOk(|tpl|, st, inverted, name, if st.enabled then ScopeFor(o) else None, w);
    case Close(name) => StepCloseOk(|tpl|, st, name, w);
    case _ =>
  }

  // ---------------------------------------------------------------- termination

  ghost function Times(r: nat, p: nat): nat {
    if r == 0 then 0 else p + Times(r - 1, p)
  }

  ghost function Pow(b: nat, k: nat): nat {
    if k == 0 then 1 else Times(b, Pow(b, k - 1))
  }

  lemma {:induction false} TimesMonotone(r: nat, b: nat, p: nat)
    requires r <= b
    ensures Times(r, p) <= Times(b, p)
  {
    if r > 0 { TimesMonotone(r - 1, b - 1, p); }
  }

  lemma {:induction false} PowPositive(b: nat, k: nat)
    requires b > 0
    ensures Pow(b, k) > 0
  {
    if k > 0 { PowPositive(b, k - 1); }
  }

  /** Turns the scopes can still ask for by jumping back. */
  ghost function Owed(n: nat, stack: seq<Frame>, scopes: seq<Scope>, w: nat): nat
    requires |scopes| == 1 + Entered(stack)
    requires forall i :: 0 <= i < |stack| ==> FrameOk(stack[i], n)
    requires forall i :: 0 <= i < |scopes| ==> ScopeOk(scopes[i], w)
  {
    if stack == [] then 0
    else
      var f := stack[|stack| - 1];
      assert FrameOk(f, n);
      var rest := stack[..|stack| - 1];
      if f.entered then
        var s := scopes[|scopes| - 1];
        assert ScopeOk(s, w);
        Times(s.count - 1 - s.index, Pow(w + 2, n - f.again)) + Owed(n, rest, scopes[..|scopes| - 1], w)
      else Owed(n, rest, scopes, w)
  }

  ghost function Weight(n: nat, st: State, w: nat): nat
    requires Ok(n, st, w)
  {
    Pow(w + 2, n - st.pos) + Owed(n, st.stack, st.scopes, w)
  }

  /** One step forward frees more than `w` repetitions of what follows. */
  lemma Forward(b: nat, k: nat, r: nat)
    requires k > 0 && r + 2 <= b
    ensures Pow(b, k - 1) + Times(r, Pow(b, k - 1)) < Pow(b, k)
  {
    var p := Pow(b, k - 1);
    PowPositive(b, k - 1);
    TimesMonotone(r, b - 2, p);
    assert Times(b, p) == p + Times(b - 1, p) && Times(b - 1, p) == p + Times(b - 2, p);
  }

  /** What a newly opened section adds to the turns owed. */
  lemma OwedByOpened(n: nat, st: State, inverted: bool, name: string, entered: Option<Scope>, w: nat)
    requires Ok(n, st, w) && st.pos < n && |st.stack| < MAX_DEPTH
    requires entered.Some? ==> st.enabled && ScopeOk(entered.value, w)
    requires Ok(n, Opened(st, inverted, name, entered), w)
    ensures var st' := Opened(st, inverted, name, entered);
            Owed(n, st'.stack, st'.scopes, w) == Owed(n, st.stack, st.scopes, w) +
              if entered == None then 0
              else Times(entered.value.count - 1 - entered.value.index, Pow(w + 2, n - st.pos - 1))
  {
    var st' := Opened(st, inverted, name, entered);
    assert st'.stack[..|st'.stack| - 1] == st.stack;
    if entered.Some? {
      assert st'.scopes[..|st'.scopes| - 1] == st.scopes;
    }
  }

  lemma OpenedDecreases(n: nat, st: State, inverted: bool, name: string, entered: Option<Scope>, w: nat)
    requires Ok(n, st, w) && st.pos < n && |st.stack| < MAX_DEPTH
    requires entered.Some? ==> st.enabled && ScopeOk(entered.value, w)
    ensures Ok(n, Opened(st, inverted, name, entered), w)
    ensures Weight(n, Opened(st, inverted, name, entered), w) < Weight(n, st, w)
  {
    OpenedOk(n, st, inverted, name, entered, w);
    OwedByOpened(n, st, inverted, name, entered, w);
    Forward(w + 2, n - st.pos, if entered == None then 0 else entered.value.count - 1 - entered.value.index);
  }

  lemma StepCloseDecreases(n: nat, st: State, name: string, w: nat)
    requires Ok(n, st, w) && st.pos < n && StepClose(st, name).Running?
    ensures Ok(n, StepClose(st, name).st, w)
    ensures Weight(n, StepClose(st, name).st, w) < Weight(n, st, w)
  {
    StepCloseOk(n, st, name, w);
    var st' := StepClose(st, name).st;
    var f := st.stack[|st.stack| - 1];
    Forward(w + 2, n - st.pos, 0);
    if st'.pos != st.pos + 1 || st'.stack == st.stack {
      var last := |st.scopes| - 1;
      assert st'.scopes[..last] == st.scopes[..last];
      PowPositive(w + 2, n - st.pos);
    }
  }

  /** A jump back is paid by the item it consumes, any other turn by the way left. */
  lemma StepDecreases(tpl: seq<Token>, st: State, text: Json -> string, w: nat)
    requires Ok(|tpl|, st, w) && Step(tpl, st, text).Running?
    ensures Ok(|tpl|, Step(tpl, st, text).st, w)
    ensures Weight(|tpl|, Step(tpl, st, text).st, w) < Weight(|tpl|, st, w)
  {
    StepOk(tpl, st, text, w);
    match tpl[st.pos]
    case Open(inverted, name) =>
      EnteredOk(st, |tpl|, name, text, w);
      var o := Names.FindOr(Objects(st.scopes), name, text);
      OpenedDecreases(|tpl|, st, inverted, name, if st.enabled then ScopeFor(o) else None, w);
    case Close(name) => StepCloseDecreases(|tpl|, st, name, w);
    case _ => Forward(w + 2, |tpl| - st.pos, 0);
  }

  /** The whole loop: return code and text written. */
  ghost function Run(tpl: seq<Token>, st: State, text: Json -> string, w: nat): (int, string)
    requires Ok(|tpl|, st, w)
    decreases Weight(|tpl|, st, w)
  {
    if Step(tpl, st, text).Stopped? then (Step(tpl, st, text).rc, Step(tpl, st, text).out)
    else
      StepDecreases(tpl, st, text, w);
      Run(tpl, Step(tpl, st, text).st, text, w)
  }
}
