/**
 The authorisation evaluator of src/binding/auth.c: a machine with a stack of
 eight cells that evaluates And/Or/Not expressions without recursion on the
 expression, and calls back once with a status.
 */
module Auth {
  import opened Errors

  const STACK_DEPTH := 8

  datatype Auth =
    | Permission(text: string)
    | Or(first: Auth, next: Auth)
    | And(first: Auth, next: Auth)
    | Not(first: Auth)
    | Yes
    | No
    | Token
    | Loa

  // ------------------------------------------------------------------- meanings

  /** Short-circuit evaluation. */
  predicate Holds(a: Auth, perm: string -> int) {
    match a
    case Permission(t) => perm(t) > 0
    case Or(x, y) => Holds(x, perm) || Holds(y, perm)
    case And(x, y) => Holds(x, perm) && Holds(y, perm)
    case Not(x) => !Holds(x, perm)
    case Yes => true
    case _ => false
  }

  /** Stack cells an expression can need. */
  function Need(a: Auth): nat {
    match a
    case Or(x, y) => Max(1 + Need(x), Need(y))
    case And(x, y) => Max(1 + Need(x), Need(y))
    case Not(x) => 1 + Need(x)
    case _ => 1
  }

  function Max(a: nat, b: nat): nat {
    if a < b then b else a
  }

  datatype Status = Value(status: int) | Overflow

  function LeafStatus(a: Auth, perm: string -> int): int {
    match a
    case Permission(t) => perm(t)
    case Yes => 1
    case _ => 0
  }

  /** Status of an expression evaluated with `used` cells of the stack taken. */
  function Eval(a: Auth, used: nat, perm: string -> int): Status {
    if used >= STACK_DEPTH then Overflow
    else match a
      case Or(x, y) =>
        var s := Eval(x, used + 1, perm);
        if s.Value? && s.status <= 0 then Eval(y, used, perm) else s
      case And(x, y) =>
        var s := Eval(x, used + 1, perm);
        if s.Value? && s.status > 0 then Eval(y, used, perm) else s
      case Not(x) =>
        var s := Eval(x, used + 1, perm);
        if s == Overflow then s else Value(if s.status <= 0 then 1 else 0)
      case _ => Value(LeafStatus(a, perm))
  }

  /** Stack cells the evaluation of an expression takes, given the permissions. */
  function Cells(a: Auth, perm: string -> int): nat {
    match a
    case Or(x, y) => if Holds(x, perm) then 1 + Cells(x, perm) else Max(1 + Cells(x, perm), Cells(y, perm))
    case And(x, y) => if Holds(x, perm) then Max(1 + Cells(x, perm), Cells(y, perm)) else 1 + Cells(x, perm)
    case Not(x) => 1 + Cells(x, perm)
    case _ => 1
  }

  /** The stack overflows exactly when the cells taken are not there. */
  lemma {:induction false} OverflowIff(a: Auth, used: nat, perm: string -> int)
    ensures Eval(a, used, perm) == Overflow <==> used + Cells(a, perm) > STACK_DEPTH
  {
    match a
    case Or(x, y) =>
      OverflowIff(x, used + 1, perm);
      OverflowIff(y, used, perm);
      EvalIsHolds(x, used + 1, perm);
    case And(x, y) =>
      OverflowIff(x, used + 1, perm);
      OverflowIff(y, used, perm);
      EvalIsHolds(x, used + 1, perm);
    case Not(x) =>
      OverflowIff(x, used + 1, perm);
    case _ =>
  }

  lemma {:induction false} CellsWithinNeed(a: Auth, perm: string -> int)
    ensures 1 <= Cells(a, perm) <= Need(a)
  {
    match a
    case Or(x, y) =>
      CellsWithinNeed(x, perm);
      CellsWithinNeed(y, perm);
    case And(x, y) =>
      CellsWithinNeed(x, perm);
      CellsWithinNeed(y, perm);
    case Not(x) =>
      CellsWithinNeed(x, perm);
    case _ =>
  }

  /** Short-circuit evaluation and its stack agree. */
  lemma {:induction false} EvalIsHolds(a: Auth, used: nat, perm: string -> int)
    ensures Eval(a, used, perm).Value? ==> (Eval(a, used, perm).status > 0 <==> Holds(a, perm))
    ensures used + Need(a) <= STACK_DEPTH ==> Eval(a, used, perm).Value?
  {
    match a
    case Or(x, y) =>
      EvalIsHolds(x, used + 1, perm);
      EvalIsHolds(y, used, perm);
    case And(x, y) =>
      EvalIsHolds(x, used + 1, perm);
      EvalIsHolds(y, used, perm);
    case Not(x) =>
      EvalIsHolds(x, used + 1, perm);
    case _ =>
  }

  /** The status handed to the callback. */
  function Reported(s: Status): int {
    if s == Overflow then -E2BIG else s.status
  }

  // -------------------------------------------------------------------- machine

  /** What is still to be done when a status reaches the stack of pending expressions. */
  function Pop(stack: seq<Auth>, status: int, perm: string -> int): Status
    decreases |stack|, 0
  {
    if stack == [] then Value(status)
    else
      var rest := stack[..|stack| - 1];
      match stack[|stack| - 1]
      case Or(_, y) =>
        if status <= 0 then Then(rest, Eval(y, |rest|, perm), perm) else Pop(rest, status, perm)
      case And(_, y) =>
        if status > 0 then Then(rest, Eval(y, |rest|, perm), perm) else Pop(rest, status, perm)
      case Not(_) => Pop(rest, if status <= 0 then 1 else 0, perm)
      case _ => Pop(rest, status, perm)
  }

  /** Evaluation of the top, then of what is pending below; an overflow ends all. */
  function Then(stack: seq<Auth>, s: Status, perm: string -> int): Status
    decreases |stack|, 1
  {
    if s == Overflow then Overflow else Pop(stack, s.status, perm)
  }

  /** Size of the work an expression can cause, and of the work left on the stack. */
  ghost function Size(a: Auth): nat {
    match a
    case Or(x, y) => 2 + Size(x) + Size(y)
    case And(x, y) => 2 + Size(x) + Size(y)
    case Not(x) => 2 + Size(x)
    case _ => 2
  }

  ghost function Left(stack: seq<Auth>): nat {
    if stack == [] then 0
    else
      var top := stack[|stack| - 1];
      Left(stack[..|stack| - 1]) + 1 + if top.Or? || top.And? then Size(top.next) else 0
  }

  /** A check in progress. */
  class Check {
    const perm: string -> int
    var idx: nat
    const stack: array<Auth>
    /** Statuses the callback received. */
    var calls: seq<int>

    ghost predicate Valid()
      reads this, stack
    {
      stack.Length == STACK_DEPTH && idx <= STACK_DEPTH
    }

    ghost function Pending(): seq<Auth>
      requires Valid()
      reads this, stack
    {
      stack[..idx]
    }

    constructor (perm: string -> int)
      ensures Valid() && fresh(stack) && idx == 0 && calls == [] && this.perm == perm
    {
      this.perm := perm;
      idx := 0;
      stack := new Auth[STACK_DEPTH](i => No);
      calls := [];
    }

    method End(status: int)
      requires Valid()
      modifies this
      ensures Valid() && calls == old(calls) + [status]
    {
      calls := calls + [status];
    }

    /** Feeds a status to the pending expressions. */
    method PopAll(status: int)
      requires Valid()
      modifies this, stack
      ensures Valid() && calls == old(calls) + [Reported(Pop(old(Pending()), status, perm))]
      decreases Left(Pending()), 0
    {
      if idx <= 0 {
        End(status);
      } else {
        ghost var p := Pending();
        idx := idx - 1;
        var auth := stack[idx];
        assert Pending() == p[..|p| - 1];
        match auth {
          case Or(_, next) =>
            if status <= 0 {
              Push(next);
            } else {
              PopAll(status);
            }
          case And(_, next) =>
            if status > 0 {
              Push(next);
            } else {
              PopAll(status);
            }
          case Not(_) =>
            PopAll(if status <= 0 then 1 else 0);
          case _ =>
            PopAll(status);
        }
      }
    }

    /** Evaluates an expression on top of the pending ones. */
    method Push(auth: Auth)
      requires Valid()
      modifies this, stack
      ensures Valid() && calls == old(calls) + [Reported(Then(old(Pending()), Eval(auth, old(idx), perm), perm))]
      decreases Left(Pending()) + Size(auth), 1
    {
      if idx >= STACK_DEPTH {
        End(-E2BIG);
      } else {
        ghost var p := Pending();
        stack[idx] := auth;
        idx := idx + 1;
        assert Pending() == p + [auth];
        assert Pending()[..|p|] == p;
        match auth {
          case Permission(text) =>
            PopAll(perm(text));
          case Or(first, _) =>
            Push(first);
          case And(first, _) =>
            Push(first);
          case Not(first) =>
            Push(first);
          case Yes =>
            PopAll(1);
          case _ =>
            PopAll(0);
        }
      }
    }
  }

  /**
   Checks an expression. The callback runs exactly once; its status is positive
   exactly when the expression holds and the cells its evaluation takes are
   there, and negative for want of cells exactly when they are not.
   */
  method AuthCheck(auth: Auth, perm: string -> int) returns (calls: seq<int>)
    ensures |calls| == 1
    ensures calls[0] > 0 <==> Holds(auth, perm) && Cells(auth, perm) <= STACK_DEPTH
    ensures Cells(auth, perm) > STACK_DEPTH ==> calls[0] == -E2BIG
    ensures Need(auth) <= STACK_DEPTH ==> (calls[0] > 0 <==> Holds(auth, perm))
    ensures calls[0] == Reported(Eval(auth, 0, perm))
  {
    var check := new Check(perm);
    check.Push(auth);
    calls := check.calls;
    EvalIsHolds(auth, 0, perm);
    OverflowIff(auth, 0, perm);
    CellsWithinNeed(auth, perm);
    assert Then([], Eval(auth, 0, perm), perm) == Eval(auth, 0, perm);
  }

  /** The bound is not the size of the expression: this one needs nine cells and takes two. */
  lemma ShortcutNeedsLess(perm: string -> int)
    ensures Need(Or(Yes, Nots(8))) == 9 && Cells(Or(Yes, Nots(8)), perm) == 2
    ensures Eval(Or(Yes, Nots(8)), 0, perm) == Value(1)
  {
    NotTower(8, perm);
  }

  /** A tower of negations takes all the cells it needs. */
  lemma {:induction false} NotTower(n: nat, perm: string -> int)
    ensures Need(Nots(n)) == Cells(Nots(n), perm) == n + 1
  {
    if n > 0 { NotTower(n - 1, perm); }
  }

  function Nots(n: nat): Auth {
    if n == 0 then Yes else Not(Nots(n - 1))
  }

  /** The connectives and the leaves, as the callback sees them: only a granted permission and Yes hold by themselves. */
  lemma Connectives(x: Auth, y: Auth, text: string, perm: string -> int)
    ensures Holds(And(x, y), perm) <==> Holds(x, perm) && Holds(y, perm)
    ensures Holds(Or(x, y), perm) <==> Holds(x, perm) || Holds(y, perm)
    ensures Holds(Not(x), perm) <==> !Holds(x, perm)
    ensures Holds(Permission(text), perm) <==> perm(text) > 0
    ensures Holds(Yes, perm) && !Holds(No, perm) && !Holds(Token, perm) && !Holds(Loa, perm)
  {
  }

  /** The status reported: that of the permission asked last, or one or zero where none decides. */
  lemma StatusOfLeaves(text: string, other: string, perm: string -> int)
    ensures Eval(Permission(text), 0, perm) == Value(perm(text)) && Eval(Yes, 0, perm) == Value(1) && Eval(No, 0, perm) == Value(0)
    ensures Eval(Not(Permission(text)), 0, perm) == Value(if perm(text) > 0 then 0 else 1)
    ensures Eval(Or(Permission(text), Permission(other)), 0, perm) == Value(if perm(text) > 0 then perm(text) else perm(other))
    ensures Eval(And(Permission(text), Permission(other)), 0, perm) == Value(if perm(text) > 0 then perm(other) else perm(text))
  {
  }

  /** Seven negations are evaluated; with eight the stack is too small, and the callback gets the error for it. */
  lemma TowerLimit(n: nat, perm: string -> int)
    ensures n <= 7 ==> Eval(Nots(n), 0, perm) == Value(if n % 2 == 0 then 1 else 0)
    ensures n >= 8 ==> Eval(Nots(n), 0, perm) == Overflow && Reported(Overflow) == -7
  {
    NotTower(n, perm);
    OverflowIff(Nots(n), 0, perm);
    if n <= 7 { TowerStatus(n, 0, perm); }
  }

  lemma {:induction false} TowerStatus(n: nat, used: nat, perm: string -> int)
    requires used + n < 8
    ensures Eval(Nots(n), used, perm) == Value(if n % 2 == 0 then 1 else 0)
    decreases n
  {
    if n > 0 { TowerStatus(n - 1, used + 1, perm); }
  }
}
