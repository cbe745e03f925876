/**
 The installer daemon as a step relation over all interleavings of its accept
 loop and its worker threads (src/main/main-afmpkg-installerd.c), which share
 a counter and a table of transactions, each under a mutex of its own. A step
 is what a thread does between two points where another may run; what the
 system answers is in the label of the step.
 */
module Daemon {
  import opened Options
  import opened Request
  import opened Transactions

  datatype Holder = Nobody | Main | Worker(id: nat)

  /** Where the accept loop stands. */
  datatype MainPoint =
    | Polling
    | Accepted
    | Counting
    | Creating
    | Uncounting
    | Releasing
    | Checking(broken: bool)
    | LivingLock
    | LivingRead
    | LivingUnlock(result: bool)
    | TableLock
    | TableRead
    | TableUnlock(result: bool)
    | Deciding(stop: bool)
    | Returned(code: int)

  /** Where a worker stands. */
  datatype WorkerPoint =
    | Serving
    | InTable
    | LeavingTable
    | Replying
    | Closed
    | Decrementing
    | Decremented
    | Finished

  datatype System = System(
    forever: bool,
    living: int,
    mutex: Holder,
    tableMutex: Holder,
    all: seq<Entry>,
    log: seq<Event>,
    main: MainPoint,
    workers: map<nat, WorkerPoint>)

  /** What waiting for a client may give: the last two are failures. */
  datatype Polled = Timeout | Client | Interrupted | Broken

  datatype Step =
    | Poll(polled: Polled)
    | MainStep
    | Create(ok: bool, id: nat)
    | Clean(now: int)
    | WorkerStep(id: nat)
    | EnterTable(id: nat)
    | UseTable(id: nat, req: Req, done: int, now: int, later: int)

  function Initial(forever: bool): System {
    System(forever, 0, Nobody, Nobody, [], [], Polling, map[])
  }

  predicate At(s: System, w: nat, p: WorkerPoint) {
    w in s.workers && s.workers[w] == p
  }

  /** Can the step be taken? A thread that wants a mutex waits until nobody holds it. */
  predicate Enabled(s: System, step: Step) {
    match step
    case Poll(_) => s.main == Polling
    case MainStep =>
      (match s.main
       case Polling => false
       case Accepted => s.mutex == Nobody
       case Creating => false
       case LivingLock => s.mutex == Nobody
       case TableLock => s.tableMutex == Nobody
       case TableRead => false
       case Returned(_) => false
       case _ => true)
    case Create(_, id) => s.main == Creating && id !in s.workers
    case Clean(_) => s.main == TableRead
    case WorkerStep(w) =>
      w in s.workers &&
      (match s.workers[w]
       case InTable => false
       case Closed => s.mutex == Nobody
       case Finished => false
       case _ => true)
    case EnterTable(w) => At(s, w, Serving) && s.tableMutex == Nobody
    case UseTable(w, req, _, _, _) => At(s, w, InTable) && Touches(req)
  }

  /** The accept loop moves on. */
  function MainNext(s: System): System {
    match s.main
    case Accepted => s.(mutex := Main, main := Counting)
    case Counting => s.(living := s.living + 1, main := Creating)
    case Uncounting => s.(living := s.living - 1, main := Releasing)
    case Releasing => s.(mutex := Nobody, main := Checking(false))
    case Checking(broken) => s.(main := if broken then Returned(2) else LivingLock)
    case LivingLock => s.(mutex := Main, main := LivingRead)
    case LivingRead => s.(main := LivingUnlock(s.living == 0))
    case LivingUnlock(result) => s.(mutex := Nobody, main := if result then TableLock else Deciding(false))
    case TableLock => s.(tableMutex := Main, main := TableRead)
    case TableUnlock(result) => s.(tableMutex := Nobody, main := Deciding(result))
    case Deciding(stop) => s.(main := if stop && !s.forever then Returned(0) else Polling)
    case _ => s
  }

  /** A worker moves on; a request that does not need the table goes straight to its reply. */
  function WorkerNext(s: System, w: nat): System
    requires w in s.workers
  {
    match s.workers[w]
    case Serving => s.(workers := s.workers[w := Replying])
    case LeavingTable => s.(tableMutex := Nobody, workers := s.workers[w := Replying])
    case Replying => s.(workers := s.workers[w := Closed])
    case Closed => s.(mutex := Worker(w), workers := s.workers[w := Decrementing])
    case Decrementing => s.(living := s.living - 1, workers := s.workers[w := Decremented])
    case Decremented => s.(mutex := Nobody, workers := s.workers[w := Finished])
    case _ => s
  }

  function Next(s: System, step: Step): System
    requires Enabled(s, step)
  {
    match step
    case Poll(p) => s.(main := if p == Client then Accepted else Checking(p == Broken))
    case MainStep => MainNext(s)
    case Create(ok, id) =>
      if ok then s.(main := Releasing, workers := s.workers[id := Serving]) else s.(main := Uncounting)
    case Clean(now) =>
      var left := Cleaned(s.all, now);
      s.(all := left, main := TableUnlock(left == []))
    case WorkerStep(w) => WorkerNext(s, w)
    case EnterTable(w) => s.(tableMutex := Worker(w), workers := s.workers[w := InTable])
    case UseTable(w, req, done, now, later) =>
      var (table, events) := Processed(s.all, s.log, req, done, now, later);
      s.(all := table, log := events, workers := s.workers[w := LeavingTable])
  }

  // ------------------------------------------------------------------ invariants

  /** Has the thread still to decrement the counter? */
  predicate Alive(p: WorkerPoint) {
    p != Decremented && p != Finished
  }

  function AliveOf(workers: map<nat, WorkerPoint>): set<nat> {
    set w | w in workers && Alive(workers[w])
  }

  /** Between counting a thread and creating it, or taking the count back. */
  predicate Ahead(p: MainPoint) {
    p == Creating || p == Uncounting
  }

  predicate MainHolds(p: MainPoint) {
    p == Counting || p == Creating || p == Uncounting || p == Releasing || p == LivingRead || p.LivingUnlock?
  }

  predicate MainHoldsTable(p: MainPoint) {
    p == TableRead || p.TableUnlock?
  }

  predicate WorkerHolds(p: WorkerPoint) {
    p == Decrementing || p == Decremented
  }

  predicate WorkerHoldsTable(p: WorkerPoint) {
    p == InTable || p == LeavingTable
  }

  /** The accept loop has seen that no thread lives. */
  predicate SawNone(p: MainPoint) {
    match p
    case LivingUnlock(result) => result
    case TableLock => true
    case TableRead => true
    case TableUnlock(_) => true
    case Deciding(stop) => stop
    case Returned(code) => code == 0
    case _ => false
  }

  /** The accept loop has seen that no transaction is left. */
  predicate SawEmpty(p: MainPoint) {
    match p
    case TableUnlock(result) => result
    case Deciding(stop) => stop
    case Returned(code) => code == 0
    case _ => false
  }

  ghost predicate CounterRight(s: System) {
    s.living == |AliveOf(s.workers)| + if Ahead(s.main) then 1 else 0
  }

  /** The mutexes are held by whom the code says, so by one thread at most. */
  ghost predicate Held(s: System) {
    && (s.mutex == Main <==> MainHolds(s.main))
    && (s.tableMutex == Main <==> MainHoldsTable(s.main))
    && (forall w :: s.mutex == Worker(w) <==> w in s.workers && WorkerHolds(s.workers[w]))
    && (forall w :: s.tableMutex == Worker(w) <==> w in s.workers && WorkerHoldsTable(s.workers[w]))
  }

  ghost predicate Quiet(s: System) {
    forall w :: w in s.workers ==> s.workers[w] == Finished
  }

  ghost predicate StopsRight(s: System) {
    && (SawNone(s.main) ==> Quiet(s))
    && (SawEmpty(s.main) ==> s.all == [])
    && (s.main == Returned(0) ==> !s.forever)
  }

  ghost predicate Invariant(s: System) {
    CounterRight(s) && Held(s) && StopsRight(s) && Accurate(s.all, s.log)
  }

  lemma InitialHolds(forever: bool)
    ensures Invariant(Initial(forever))
  {
    assert AliveOf(map[]) == {};
  }

  lemma Unchanged(workers: map<nat, WorkerPoint>, w: nat, p: WorkerPoint)
    requires w in workers && (Alive(p) <==> Alive(workers[w]))
    ensures AliveOf(workers[w := p]) == AliveOf(workers)
  {
  }

  lemma OneLess(workers: map<nat, WorkerPoint>, w: nat, p: WorkerPoint)
    requires w in workers && Alive(workers[w]) && !Alive(p)
    ensures |AliveOf(workers[w := p])| == |AliveOf(workers)| - 1
  {
    assert AliveOf(workers[w := p]) == AliveOf(workers) - {w};
  }

  lemma OneMore(workers: map<nat, WorkerPoint>, w: nat, p: WorkerPoint)
    requires w !in workers && Alive(p)
    ensures |AliveOf(workers[w := p])| == |AliveOf(workers)| + 1
  {
    assert AliveOf(workers[w := p]) == AliveOf(workers) + {w};
  }

  lemma NoneAlive(s: System)
    requires CounterRight(s) && Held(s) && s.main == LivingRead && s.living == 0
    ensures Quiet(s)
  {
    forall w | w in s.workers ensures s.workers[w] == Finished {
      assert w !in AliveOf(s.workers);
    }
  }

  lemma MainLocks(s: System)
    requires Held(s) && Enabled(s, MainStep)
    ensures Held(MainNext(s))
  {
  }

  lemma MainKeeps(s: System)
    requires Invariant(s) && Enabled(s, MainStep)
    ensures Invariant(MainNext(s))
  {
    hide Accurate, AliveOf, Held;
    MainLocks(s);
    if s.main == LivingRead && s.living == 0 {
      NoneAlive(s);
    }
  }

  lemma WorkerCounts(s: System, w: nat)
    requires CounterRight(s) && Enabled(s, WorkerStep(w))
    ensures CounterRight(WorkerNext(s, w))
  {
    hide AliveOf;
    var t := WorkerNext(s, w);
    var p := t.workers[w];
    assert t.workers == s.workers[w := p];
    if s.workers[w] == Decrementing {
      OneLess(s.workers, w, p);
    } else {
      Unchanged(s.workers, w, p);
    }
  }

  lemma WorkerLocks(s: System, w: nat)
    requires Held(s) && Enabled(s, WorkerStep(w))
    ensures Held(WorkerNext(s, w))
  {
  }

  lemma WorkerKeeps(s: System, w: nat)
    requires Invariant(s) && Enabled(s, WorkerStep(w))
    ensures Invariant(WorkerNext(s, w))
  {
    hide Accurate, Held, CounterRight;
    WorkerCounts(s, w);
    WorkerLocks(s, w);
  }

  lemma StepLocks(s: System, step: Step)
    requires Held(s) && Enabled(s, step)
    ensures Held(Next(s, step))
  {
    hide Cleaned, Processed, MainNext, WorkerNext;
    match step {
      case MainStep => MainLocks(s);
      case WorkerStep(w) => WorkerLocks(s, w);
      case _ =>
    }
  }

  /** Every step of every thread keeps the invariant. */
  lemma StepKeeps(s: System, step: Step)
    requires Invariant(s) && Enabled(s, step)
    ensures Invariant(Next(s, step))
  {
    hide Accurate, AliveOf, Cleaned, Processed, MainNext, WorkerNext, Held;
    StepLocks(s, step);
    match step {
      case Poll(_) =>
      case MainStep => MainKeeps(s);
      case Create(ok, id) =>
        OneMore(s.workers, id, Serving);
      case Clean(now) =>
        CleanedKeeps(s.all, s.log, now);
      case WorkerStep(w) => WorkerKeeps(s, w);
      case EnterTable(w) =>
        Unchanged(s.workers, w, InTable);
      case UseTable(w, req, done, now, later) =>
        Unchanged(s.workers, w, LeavingTable);
        ProcessedKeeps(s.all, s.log, req, done, now, later);
    }
  }

  // ------------------------------------------------------------------------ runs

  ghost predicate IsRun(states: seq<System>, steps: seq<Step>) {
    && |states| == |steps| + 1
    && states[0] == Initial(states[0].forever)
    && forall i :: 0 <= i < |steps| ==> Enabled(states[i], steps[i]) && states[i + 1] == Next(states[i], steps[i])
  }

  lemma {:induction false} RunKeeps(states: seq<System>, steps: seq<Step>, k: nat)
    requires IsRun(states, steps) && k < |states|
    ensures Invariant(states[k])
  {
    if k == 0 {
      InitialHolds(states[0].forever);
    } else {
      RunKeeps(states, steps, k - 1);
      StepKeeps(states[k - 1], steps[k - 1]);
      assert states[k] == Next(states[k - 1], steps[k - 1]);
    }
  }

  /** At every moment the counter is the number of threads created that have not yet decremented it. */
  lemma LivingIsExact(states: seq<System>, steps: seq<Step>, k: nat)
    requires IsRun(states, steps) && k < |states|
    ensures states[k].living == |AliveOf(states[k].workers)| + if Ahead(states[k].main) then 1 else 0
    ensures states[k].living >= 0
  {
    RunKeeps(states, steps, k);
  }

  /** No two threads are in sections of the same mutex. */
  lemma OneAtATime(states: seq<System>, steps: seq<Step>, k: nat, v: nat, w: nat)
    requires IsRun(states, steps) && k < |states|
    requires v in states[k].workers && w in states[k].workers
    ensures var s := states[k];
            && (WorkerHolds(s.workers[v]) && WorkerHolds(s.workers[w]) ==> v == w)
            && (WorkerHoldsTable(s.workers[v]) && WorkerHoldsTable(s.workers[w]) ==> v == w)
            && !(WorkerHolds(s.workers[v]) && MainHolds(s.main))
            && !(WorkerHoldsTable(s.workers[v]) && MainHoldsTable(s.main))
  {
    RunKeeps(states, steps, k);
  }

  /** When the daemon stops by itself, every thread is done and no transaction is left. */
  lemma StopsSafely(states: seq<System>, steps: seq<Step>, k: nat)
    requires IsRun(states, steps) && k < |states| && states[k].main == Returned(0)
    ensures (forall w :: w in states[k].workers ==> states[k].workers[w] == Finished)
    ensures states[k].all == [] && states[k].living == 0 && !states[k].forever
  {
    RunKeeps(states, steps, k);
    assert AliveOf(states[k].workers) == {};
  }

  /** Transactions are distinct, and every status given is that of the requests recorded since the creation. */
  lemma StatusIsExact(states: seq<System>, steps: seq<Step>, k: nat, i: nat)
    requires IsRun(states, steps) && k < |states|
    requires i < |states[k].log| && states[k].log[i].Reported?
    ensures Distinct(states[k].all)
    ensures var log := states[k].log;
            && log[i].status == StatusAfter(log[..i], log[i].id)
            && log[i].status.success == Signed(Successes(log[..i], log[i].id) % WORD)
  {
    RunKeeps(states, steps, k);
  }

  /** The daemon never blocks: until it returns, some thread can go on. */
  lemma NeverStuck(states: seq<System>, steps: seq<Step>, k: nat)
    requires IsRun(states, steps) && k < |states| && !states[k].main.Returned?
    ensures exists step :: Enabled(states[k], step)
  {
    RunKeeps(states, steps, k);
    var s := states[k];
    match s.main {
      case Polling => assert Enabled(s, Poll(Timeout));
      case Creating =>
        var id := Unused(s.workers.Keys);
        assert Enabled(s, Create(false, id));
      case TableRead => assert Enabled(s, Clean(0));
      case Accepted => HolderGoesOn(s);
      case LivingLock => HolderGoesOn(s);
      case TableLock => TableHolderGoesOn(s);
      case _ => assert Enabled(s, MainStep);
    }
  }

  /** Who holds the mutex can go on; when nobody does, the accept loop can. */
  lemma HolderGoesOn(s: System)
    requires Held(s) && (s.main == Accepted || s.main == LivingLock)
    ensures exists step :: Enabled(s, step)
  {
    match s.mutex {
      case Nobody => assert Enabled(s, MainStep);
      case Worker(w) => assert Enabled(s, WorkerStep(w));
      case Main => assert false;
    }
  }

  lemma TableHolderGoesOn(s: System)
    requires Held(s) && s.main == TableLock
    ensures exists step :: Enabled(s, step)
  {
    match s.tableMutex {
      case Nobody => assert Enabled(s, MainStep);
      case Worker(w) =>
        if s.workers[w] == InTable {
          assert Enabled(s, UseTable(w, INIT.(kind := GetStatus, transid := Some("")), 0, 0, 0));
        } else {
          assert Enabled(s, WorkerStep(w));
        }
      case Main => assert false;
    }
  }

  lemma Unused(used: set<nat>) returns (id: nat)
    ensures forall n :: n in used ==> n < id
    decreases used
  {
    if used == {} {
      id := 0;
    } else {
      var n :| n in used;
      var low := Unused(used - {n});
      id := if low <= n then n + 1 else low;
      assert forall m :: m in used ==> m == n || m in used - {n};
    }
  }
}
