/**
 Whole turns of the daemon, one thread at a time: how a client gets its thread,
 what a thread does, and when the loop ends (src/main/main-afmpkg-installerd.c).
 */
module DaemonTurns {
  import opened Daemon
  import opened Ledger
  import opened Options
  import opened Request
  import opened Transactions

  /** The state after some steps, if they can all be taken. */
  function After(s: System, steps: seq<Step>): Option<System>
    decreases |steps|
  {
    if steps == [] then Some(s)
    else if !Enabled(s, steps[0]) then None
    else After(Daemon.Next(s, steps[0]), steps[1..])
  }

  /** The step leads from the one state to the other. */
  predicate Takes(s: System, step: Step, t: System) {
    Enabled(s, step) && Daemon.Next(s, step) == t
  }

  /** Steps through states. */
  lemma {:induction false} Through(states: seq<System>, steps: seq<Step>)
    requires |states| == |steps| + 1 && forall i :: 0 <= i < |steps| ==> Takes(states[i], steps[i], states[i + 1])
    ensures After(states[0], steps) == Some(states[|steps|])
    decreases |steps|
  {
    hide Enabled, Daemon.Next;
    if steps != [] {
      assert Takes(states[0], steps[0], states[0 + 1]);
      forall i | 0 <= i < |steps| - 1 ensures Takes(states[1..][i], steps[1..][i], states[1..][i + 1]) {
        assert Takes(states[i + 1], steps[i + 1], states[i + 1 + 1]);
      }
      Through(states[1..], steps[1..]);
    }
  }

  lemma {:induction false} AfterConcat(s: System, a: seq<Step>, b: seq<Step>)
    ensures After(s, a + b) == if After(s, a) == None then None else After(After(s, a).value, b)
    decreases |a|
  {
    if a == [] {
      assert a + b == b;
    } else if Enabled(s, a[0]) {
      assert (a + b)[1..] == a[1..] + b;
      AfterConcat(Daemon.Next(s, a[0]), a[1..], b);
    }
  }

  ghost predicate Free(s: System) {
    s.mutex == Nobody && s.tableMutex == Nobody
  }

  /** The turn of the loop after a poll that gave no client: is anybody living, is a transaction left? */
  function Check(now: int): seq<Step> {
    [MainStep, MainStep, MainStep, MainStep, MainStep] + [Clean(now), MainStep, MainStep]
  }

  lemma FiveSteps(s: System)
    requires s.main == Checking(false) && s.mutex == Nobody && s.tableMutex == Nobody && s.living == 0
    ensures After(s, [MainStep, MainStep, MainStep, MainStep, MainStep]) == Some(s.(main := TableRead, tableMutex := Main))
  {
    hide After;
    var s1 := s.(main := LivingLock);
    var s2 := s1.(mutex := Main, main := LivingRead);
    var s3 := s2.(main := LivingUnlock(true));
    var s4 := s3.(mutex := Nobody, main := TableLock);
    var s5 := s4.(tableMutex := Main, main := TableRead);
    assert Takes(s, MainStep, s1) && Takes(s1, MainStep, s2) && Takes(s2, MainStep, s3) && Takes(s3, MainStep, s4) && Takes(s4, MainStep, s5);
    hide Takes;
    Through([s, s1, s2, s3, s4, s5], [MainStep, MainStep, MainStep, MainStep, MainStep]);
  }

  lemma ThreeSteps(s: System, now: int)
    requires s.main == TableRead && s.tableMutex == Main
    ensures var left := Cleaned(s.all, now);
            After(s, [Clean(now), MainStep, MainStep]) ==
            Some(s.(all := left, tableMutex := Nobody, main := if left == [] && !s.forever then Returned(0) else Polling))
  {
    hide After, Cleaned;
    var left := Cleaned(s.all, now);
    var s1 := s.(all := left, main := TableUnlock(left == []));
    var s2 := s1.(tableMutex := Nobody, main := Deciding(left == []));
    var s3 := s2.(main := if left == [] && !s.forever then Returned(0) else Polling);
    assert Takes(s, Clean(now), s1) && Takes(s1, MainStep, s2) && Takes(s2, MainStep, s3);
    hide Takes;
    Through([s, s1, s2, s3], [Clean(now), MainStep, MainStep]);
  }

  /** When nobody lives the loop returns 0 exactly if no transaction is left and it is not to run forever. */
  lemma IdleTurn(s: System, now: int)
    requires s.main == Checking(false) && Free(s) && s.living == 0
    ensures var left := Cleaned(s.all, now);
            After(s, Check(now)) == Some(s.(all := left, main := if left == [] && !s.forever then Returned(0) else Polling))
  {
    hide Enabled, Daemon.Next, Cleaned;
    FiveSteps(s);
    ThreeSteps(s.(main := TableRead, tableMutex := Main), now);
    AfterConcat(s, [MainStep, MainStep, MainStep, MainStep, MainStep], [Clean(now), MainStep, MainStep]);
  }

  /** While somebody lives it goes on polling. */
  lemma BusyTurn(s: System)
    requires s.main == Checking(false) && Free(s) && s.living != 0
    ensures After(s, [MainStep, MainStep, MainStep, MainStep, MainStep]) == Some(s.(main := Polling))
  {
    hide After;
    var s1 := s.(main := LivingLock);
    var s2 := s1.(mutex := Main, main := LivingRead);
    var s3 := s2.(main := LivingUnlock(false));
    var s4 := s3.(mutex := Nobody, main := Deciding(false));
    var s5 := s4.(main := Polling);
    assert Takes(s, MainStep, s1) && Takes(s1, MainStep, s2) && Takes(s2, MainStep, s3) && Takes(s3, MainStep, s4) && Takes(s4, MainStep, s5);
    hide Takes;
    Through([s, s1, s2, s3, s4, s5], [MainStep, MainStep, MainStep, MainStep, MainStep]);
  }

  /** A poll that fails ends the loop with 2, unless it was interrupted. */
  lemma PollTurn(s: System)
    requires s.main == Polling
    ensures After(s, [Poll(Broken), MainStep]) == Some(s.(main := Returned(2)))
    ensures After(s, [Poll(Interrupted)]) == After(s, [Poll(Timeout)]) == Some(s.(main := Checking(false)))
  {
    hide After;
    var s1, s2 := s.(main := Checking(true)), s.(main := Checking(false));
    assert Takes(s, Poll(Broken), s1) && Takes(s1, MainStep, s.(main := Returned(2)));
    assert Takes(s, Poll(Interrupted), s2) && Takes(s, Poll(Timeout), s2);
    hide Takes;
    Through([s, s1, s.(main := Returned(2))], [Poll(Broken), MainStep]);
    Through([s, s2], [Poll(Interrupted)]);
    Through([s, s2], [Poll(Timeout)]);
  }

  /** A client gets a thread, which is counted. */
  lemma ClientTurn(s: System, id: nat)
    requires s.main == Polling && Free(s) && id !in s.workers
    ensures After(s, [Poll(Client), MainStep, MainStep, Create(true, id), MainStep]) ==
            Some(s.(main := Checking(false), living := s.living + 1, workers := s.workers[id := Serving]))
  {
    hide After;
    var s1 := s.(main := Accepted);
    var s2 := s1.(mutex := Main, main := Counting);
    var s3 := s2.(living := s.living + 1, main := Creating);
    var s4 := s3.(main := Releasing, workers := s.workers[id := Serving]);
    var s5 := s4.(mutex := Nobody, main := Checking(false));
    assert Takes(s, Poll(Client), s1) && Takes(s1, MainStep, s2) && Takes(s2, MainStep, s3) && Takes(s3, Create(true, id), s4) && Takes(s4, MainStep, s5);
    hide Takes;
    Through([s, s1, s2, s3, s4, s5], [Poll(Client), MainStep, MainStep, Create(true, id), MainStep]);
  }

  /** When none can be made the count is as before. */
  lemma RefusedTurn(s: System, id: nat)
    requires s.main == Polling && Free(s) && id !in s.workers
    ensures After(s, [Poll(Client), MainStep, MainStep, Create(false, id), MainStep, MainStep]) == Some(s.(main := Checking(false)))
  {
    hide After;
    var s1 := s.(main := Accepted);
    var s2 := s1.(mutex := Main, main := Counting);
    var s3 := s2.(living := s.living + 1, main := Creating);
    var s4 := s3.(main := Uncounting);
    var s5 := s4.(living := s.living, main := Releasing);
    var s6 := s5.(mutex := Nobody, main := Checking(false));
    assert Takes(s, Poll(Client), s1) && Takes(s1, MainStep, s2) && Takes(s2, MainStep, s3);
    assert Takes(s3, Create(false, id), s4) && Takes(s4, MainStep, s5) && Takes(s5, MainStep, s6);
    hide Takes;
    Through([s, s1, s2, s3, s4, s5, s6], [Poll(Client), MainStep, MainStep, Create(false, id), MainStep, MainStep]);
  }

  /** What a thread does with the table: a request of a message charges its transaction, one for a status asks for it. */
  function Use(w: nat, req: Req, done: int, now: int, later: int): seq<Step> {
    [EnterTable(w), UseTable(w, req, done, now, later), WorkerStep(w)]
  }

  function Leave(w: nat): seq<Step> {
    [WorkerStep(w), WorkerStep(w), WorkerStep(w), WorkerStep(w)]
  }

  /** From its reply on a thread closes the connection and takes itself off the count. */
  lemma LeaveTurn(s: System, w: nat)
    requires At(s, w, Replying) && s.mutex == Nobody
    ensures After(s, Leave(w)) == Some(s.(living := s.living - 1, workers := s.workers[w := Finished]))
  {
    hide After;
    var s1 := s.(workers := s.workers[w := Closed]);
    var s2 := s1.(mutex := Worker(w), workers := s1.workers[w := Decrementing]);
    var s3 := s2.(living := s.living - 1, workers := s2.workers[w := Decremented]);
    var s4 := s3.(mutex := Nobody, workers := s3.workers[w := Finished]);
    assert Takes(s, WorkerStep(w), s1) && Takes(s1, WorkerStep(w), s2) && Takes(s2, WorkerStep(w), s3) && Takes(s3, WorkerStep(w), s4);
    hide Takes;
    Through([s, s1, s2, s3, s4], Leave(w));
    assert s4.workers == s.workers[w := Finished];
  }

  /** The table changes by one operation of its ledger, under its mutex. */
  lemma UseTurn(s: System, w: nat, req: Req, done: int, now: int, later: int)
    requires At(s, w, Serving) && s.tableMutex == Nobody && req.transid.Some? && req.kind in {AddPackage, RemovePackage, GetStatus}
    ensures var op := if req.kind == GetStatus then Ask(req.transid.value, now)
                      else Outcome(req.transid.value, req.count, done >= 0, now, later);
            var (table, events) := Done(s.all, s.log, op);
            After(s, Use(w, req, done, now, later)) == Some(s.(all := table, log := events, workers := s.workers[w := Replying]))
  {
    hide Record, Report, After;
    var s1 := s.(tableMutex := Worker(w), workers := s.workers[w := InTable]);
    var (table, events) := Processed(s.all, s.log, req, done, now, later);
    var s2 := s1.(all := table, log := events, workers := s1.workers[w := LeavingTable]);
    var s3 := s2.(tableMutex := Nobody, workers := s2.workers[w := Replying]);
    var use := UseTable(w, req, done, now, later);
    assert Takes(s, EnterTable(w), s1) && Takes(s1, use, s2) && Takes(s2, WorkerStep(w), s3);
    hide Takes;
    Through([s, s1, s2, s3], Use(w, req, done, now, later));
    assert s3.workers == s.workers[w := Replying];
  }

  /** A thread that does not need the table goes on to its reply. */
  lemma SkipTurn(s: System, w: nat)
    requires At(s, w, Serving)
    ensures After(s, [WorkerStep(w)]) == Some(s.(workers := s.workers[w := Replying]))
  {
    hide After;
    assert Takes(s, WorkerStep(w), s.(workers := s.workers[w := Replying]));
    Through([s, s.(workers := s.workers[w := Replying])], [WorkerStep(w)]);
  }
}
