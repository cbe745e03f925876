/**
 The table of transactions of the installer daemon
 (src/afmpkg/afmpkg-request.c): counters per transaction identifier, forgotten
 after an hour or once reported.
 */
module Transactions {
  import opened Errors
  import opened Options
  import opened Request
  import Wire

  const RETENTION := 3600
  const WORD := 0x1_0000_0000

  /** `success` and `fail` are 32-bit counters. */
  datatype Entry = Entry(id: string, expire: int, count: nat, success: nat, fail: nat)

  datatype Status = Status(count: int, success: int, fail: int)

  function Shown(v: int): string {
    if v < 0 then "-" + Wire.Decimal(-v) else Wire.Decimal(v)
  }

  /** The text of a status. */
  function StatusText(s: Status): (t: string)
    ensures |t| > 0
  {
    Shown(s.count) + " " + Shown(s.success) + " " + Shown(s.fail)
  }

  /** What happened to the table, oldest first. */
  datatype Event =
    | Created(id: string, count: nat)
    | Recorded(id: string, ok: bool)
    | Reported(id: string, status: Status)

  /** An unsigned value printed as a signed one. */
  function Signed(v: nat): int {
    if v < WORD / 2 then v else v - WORD
  }

  /** A counter that starts at zero and goes down, in 32 bits. */
  function Below(n: nat): nat {
    (0 - n) % WORD
  }

  // ---------------------------------------------------------------- what counts

  /** Successful requests recorded since the transaction was last created. */
  function Successes(log: seq<Event>, id: string): nat {
    if log == [] then 0
    else
      var before := Successes(log[..|log| - 1], id);
      match log[|log| - 1]
      case Created(i, _) => if i == id then 0 else before
      case Recorded(i, ok) => if i == id && ok then before + 1 else before
      case Reported(_, _) => before
  }

  function Failures(log: seq<Event>, id: string): nat {
    if log == [] then 0
    else
      var before := Failures(log[..|log| - 1], id);
      match log[|log| - 1]
      case Created(i, _) => if i == id then 0 else before
      case Recorded(i, ok) => if i == id && !ok then before + 1 else before
      case Reported(_, _) => before
  }

  /** The count given when the transaction was last created. */
  function CountOf(log: seq<Event>, id: string): nat {
    if log == [] then 0
    else
      var before := CountOf(log[..|log| - 1], id);
      match log[|log| - 1]
      case Created(i, n) => if i == id then n else before
      case _ => before
  }

  lemma After(log: seq<Event>, e: Event, id: string)
    ensures Successes(log + [e], id) ==
            match e {
              case Created(i, _) => if i == id then 0 else Successes(log, id)
              case Recorded(i, ok) => if i == id && ok then Successes(log, id) + 1 else Successes(log, id)
              case Reported(_, _) => Successes(log, id) }
    ensures Failures(log + [e], id) ==
            match e {
              case Created(i, _) => if i == id then 0 else Failures(log, id)
              case Recorded(i, ok) => if i == id && !ok then Failures(log, id) + 1 else Failures(log, id)
              case Reported(_, _) => Failures(log, id) }
    ensures CountOf(log + [e], id) ==
            match e {
              case Created(i, n) => if i == id then n else CountOf(log, id)
              case _ => CountOf(log, id) }
  {
    assert (log + [e])[..|log + [e]| - 1] == log;
  }

  /** What an entry must hold after the events of a log. */
  ghost predicate Tallies(e: Entry, log: seq<Event>) {
    && e.count == CountOf(log, e.id)
    && e.success == Successes(log, e.id) % WORD
    && e.fail == Below(Failures(log, e.id))
  }

  ghost predicate Distinct(all: seq<Entry>) {
    forall i, j :: 0 <= i < j < |all| ==> all[i].id != all[j].id
  }

  /** The status of a transaction after the events of a log. */
  ghost function StatusAfter(log: seq<Event>, id: string): Status {
    Status(Signed(CountOf(log, id)), Signed(Successes(log, id) % WORD), Signed(Below(Failures(log, id))))
  }

  /** Every report gave the counts of its time. */
  ghost predicate Truthful(log: seq<Event>) {
    forall k :: 0 <= k < |log| && log[k].Reported? ==> log[k].status == StatusAfter(log[..k], log[k].id)
  }

  /** What holds of the table after the events of a log. */
  ghost predicate Accurate(all: seq<Entry>, log: seq<Event>) {
    && Distinct(all)
    && (forall e :: e in all ==> Tallies(e, log))
    && Truthful(log)
  }

  // ----------------------------------------------------------------- operations

  /** The entries not expired. */
  function Cleaned(all: seq<Entry>, now: int): seq<Entry> {
    if all == [] then []
    else Cleaned(all[..|all| - 1], now) + (if all[|all| - 1].expire > now then [all[|all| - 1]] else [])
  }

  /** Position of an identifier, or the length if it is absent. */
  function Find(all: seq<Entry>, id: string): (k: nat)
    ensures k <= |all| && (k < |all| ==> all[k].id == id) && forall i :: 0 <= i < k ==> all[i].id != id
  {
    if all == [] || all[0].id == id then 0 else 1 + Find(all[1..], id)
  }

  /** The table, the log and the position of a transaction, created if there is a count. */
  function Get(all: seq<Entry>, log: seq<Event>, id: string, count: nat, now: int, later: int): (seq<Entry>, seq<Event>, Option<nat>) {
    var kept := Cleaned(all, now);
    var k := Find(kept, id);
    if k < |kept| then (kept, log, Some(k))
    else if count == 0 then (kept, log, None)
    else ([Entry(id, later + RETENTION, count, 0, 0)] + kept, log + [Created(id, count)], Some(0))
  }

  /** Records the outcome of a request. Without transaction it is an error. */
  function Record(all: seq<Entry>, log: seq<Event>, id: string, count: nat, ok: bool, now: int, later: int): (seq<Entry>, seq<Event>) {
    var (table, events, at) := Get(all, log, id, count, now, later);
    if at.Some? && at.value < |table| then (table[at.value := Bump(table[at.value], ok)], events + [Recorded(id, ok)])
    else (table, events)
  }

  /** Failures count downwards, as the code has it. */
  function Bump(e: Entry, ok: bool): Entry {
    if ok then e.(success := (e.success + 1) % WORD) else e.(fail := (e.fail - 1) % WORD)
  }

  /** Reports a transaction, and forgets it. */
  function Report(all: seq<Entry>, log: seq<Event>, id: string, now: int): (seq<Entry>, seq<Event>, Option<Status>) {
    var (table, events, at) := Get(all, log, id, 0, now, now);
    if at.Some? && at.value < |table| then
      var e := table[at.value];
      var status := Status(Signed(e.count), Signed(e.success), Signed(e.fail));
      (table[..at.value] + table[at.value + 1..], events + [Reported(id, status)], Some(status))
    else (table, events, None)
  }

  // ------------------------------------------------------------------ invariants

  lemma {:induction false} CleanedAmong(all: seq<Entry>, now: int)
    ensures forall e :: e in Cleaned(all, now) <==> e in all && e.expire > now
    ensures Distinct(all) ==> Distinct(Cleaned(all, now))
  {
    if all != [] {
      CleanedAmong(all[..|all| - 1], now);
      assert forall e :: e in all[..|all| - 1] ==> e in all;
    }
  }

  lemma GetKeeps(all: seq<Entry>, log: seq<Event>, id: string, count: nat, now: int, later: int)
    requires Accurate(all, log)
    ensures var (table, events, at) := Get(all, log, id, count, now, later);
            && Accurate(table, events)
            && (at.Some? ==> at.value < |table| && table[at.value].id == id)
            && (at == None ==> id !in (set e | e in table :: e.id) && count == 0)
  {
    CleanedAmong(all, now);
    var kept := Cleaned(all, now);
    var k := Find(kept, id);
    if k == |kept| {
      assert forall i :: 0 <= i < |kept| ==> kept[i].id != id;
      if count != 0 {
        var made := Entry(id, later + RETENTION, count, 0, 0);
        After(log, Created(id, count), id);
        CreatedKeeps(kept, log, made);
      }
    }
  }

  lemma CreatedKeeps(kept: seq<Entry>, log: seq<Event>, made: Entry)
    requires Accurate(kept, log) && made.success == made.fail == 0
    requires forall i :: 0 <= i < |kept| ==> kept[i].id != made.id
    ensures Accurate([made] + kept, log + [Created(made.id, made.count)])
  {
    var event := Created(made.id, made.count);
    forall e | e in [made] + kept ensures Tallies(e, log + [event]) {
      After(log, event, e.id);
    }
    TruthfulMore(log, event);
  }

  lemma TruthfulMore(log: seq<Event>, e: Event)
    requires Truthful(log) && (e.Reported? ==> e.status == StatusAfter(log, e.id))
    ensures Truthful(log + [e])
  {
    var more := log + [e];
    forall k | 0 <= k < |more| && more[k].Reported? ensures more[k].status == StatusAfter(more[..k], more[k].id) {
      if k < |log| { assert more[..k] == log[..k]; } else { assert more[..k] == log; }
    }
  }

  lemma RecordKeeps(all: seq<Entry>, log: seq<Event>, id: string, count: nat, ok: bool, now: int, later: int)
    requires Accurate(all, log)
    ensures var (table, events) := Record(all, log, id, count, ok, now, later); Accurate(table, events)
  {
    hide Get, Accurate;
    GetKeeps(all, log, id, count, now, later);
    var (table, events, at) := Get(all, log, id, count, now, later);
    if at.Some? {
      BumpKeeps(table, events, at.value, ok);
    }
  }

  lemma BumpKeeps(table: seq<Entry>, log: seq<Event>, k: nat, ok: bool)
    requires Accurate(table, log) && k < |table|
    ensures Accurate(table[k := Bump(table[k], ok)], log + [Recorded(table[k].id, ok)])
  {
    var event := Recorded(table[k].id, ok);
    var bumped := table[k := Bump(table[k], ok)];
    assert forall i :: 0 <= i < |table| ==> bumped[i].id == table[i].id;
    forall i | 0 <= i < |bumped| ensures Tallies(bumped[i], log + [event]) {
      BumpTallies(table[i], log, table[k].id, ok);
    }
    TruthfulMore(log, event);
  }

  lemma BumpTallies(e: Entry, log: seq<Event>, id: string, ok: bool)
    requires Tallies(e, log)
    ensures Tallies(if e.id == id then Bump(e, ok) else e, log + [Recorded(id, ok)])
  {
    After(log, Recorded(id, ok), e.id);
    WrapUp(Successes(log, e.id));
    WrapDown(Failures(log, e.id));
  }

  lemma WrapUp(n: nat)
    ensures (n % WORD + 1) % WORD == (n + 1) % WORD
  {
  }

  lemma WrapDown(n: nat)
    ensures (Below(n) - 1) % WORD == Below(n + 1)
  {
  }

  /** A report gives the successes recorded since the creation of the transaction. */
  lemma ReportKeeps(all: seq<Entry>, log: seq<Event>, id: string, now: int)
    requires Accurate(all, log)
    ensures var (table, events, status) := Report(all, log, id, now);
            && Accurate(table, events)
            && (status.Some? ==> status.value == StatusAfter(log, id))
            && (forall e :: e in table ==> e.id != id)
  {
    hide Get;
    GetKeeps(all, log, id, 0, now, now);
    assert Get(all, log, id, 0, now, now).1 == log by { GetNoCount(all, log, id, now); }
    var (table, events, at) := Get(all, log, id, 0, now, now);
    if at.Some? {
      var e := table[at.value];
      var event := Reported(id, Status(Signed(e.count), Signed(e.success), Signed(e.fail)));
      assert Tallies(e, log);
      var left := table[..at.value] + table[at.value + 1..];
      forall x | x in left ensures Tallies(x, log + [event]) {
        assert Tallies(x, log);
        After(log, event, x.id);
      }
      TruthfulMore(log, event);
    }
  }

  lemma GetNoCount(all: seq<Entry>, log: seq<Event>, id: string, now: int)
    ensures Get(all, log, id, 0, now, now).1 == log
  {
  }

  lemma {:induction false} CleanedKeeps(all: seq<Entry>, log: seq<Event>, now: int)
    requires Accurate(all, log)
    ensures Accurate(Cleaned(all, now), log)
  {
    CleanedAmong(all, now);
  }

  // ------------------------------------------------------------- processing requests

  /** Whether processing a request goes to the table. */
  predicate Touches(r: Req) {
    match r.kind
    case AddPackage => r.transid.Some?
    case RemovePackage => r.transid.Some?
    case GetStatus => r.transid.Some?
    case _ => false
  }

  /** The table and the log after a request was processed; `done` is the outcome of the installation. */
  function Processed(all: seq<Entry>, log: seq<Event>, r: Req, done: int, now: int, later: int): (seq<Entry>, seq<Event>) {
    if !Touches(r) then (all, log)
    else if r.kind == GetStatus then (Report(all, log, r.transid.value, now).0, Report(all, log, r.transid.value, now).1)
    else Record(all, log, r.transid.value, r.count, done >= 0, now, later)
  }

  /** The transaction of the request is missing and cannot be created, its count being unknown. */
  ghost predicate Unrecorded(all: seq<Entry>, log: seq<Event>, r: Req, now: int, later: int) {
    r.transid.Some? && Get(all, log, r.transid.value, r.count, now, later).2 == None
  }

  lemma ProcessedKeeps(all: seq<Entry>, log: seq<Event>, r: Req, done: int, now: int, later: int)
    requires Accurate(all, log)
    ensures var (table, events) := Processed(all, log, r, done, now, later); Accurate(table, events)
  {
    hide Accurate, Report, Record;
    if Touches(r) {
      ReportKeeps(all, log, r.transid.value, now);
      RecordKeeps(all, log, r.transid.value, r.count, done >= 0, now, later);
    }
  }

  class Table {
    var all: seq<Entry>
    ghost var log: seq<Event>

    constructor ()
      ensures all == [] && log == [] && Accurate(all, log)
    {
      all, log := [], [];
    }

    /** Drops the expired transactions. */
    method Cleanup(now: int)
      modifies this`all
      ensures all == Cleaned(old(all), now)
    {
      ghost var was, j := all, 0;
      var i := 0;
      assert was[..0] == [] && all[..0] == [];
      while i < |all|
        invariant i <= |all| && j <= |was|
        invariant all[..i] == Cleaned(was[..j], now) && all[i..] == was[j..]
        decreases |all| - i
      {
        assert was[..j + 1][..j] == was[..j] && was[..j + 1][j] == was[j];
        assert all[i] == all[i..][0] == was[j] && all[i + 1..] == all[i..][1..] == was[j + 1..];
        if all[i].expire > now {
          assert all[..i + 1] == all[..i] + [was[j]];
          i := i + 1;
        } else {
          all := all[..i] + all[i + 1..];
        }
        j := j + 1;
      }
      assert was[..j] == was && all[..i] == all;
    }

    /** Finds a transaction, creating it when it is missing and there is a count. */
    method GetTransaction(id: string, count: nat, now: int, later: int) returns (at: Option<nat>)
      modifies this
      ensures (all, log, at) == Get(old(all), old(log), id, count, now, later)
    {
      hide Cleaned;
      Cleanup(now);
      var k := 0;
      assert all[0..] == all;
      while k < |all| && all[k].id != id
        invariant k <= |all| && Find(all, id) == k + Find(all[k..], id)
      {
        assert all[k..][1..] == all[k + 1..];
        k := k + 1;
      }
      if k < |all| {
        return Some(k);
      }
      if count == 0 {
        return None;
      }
      all := [Entry(id, later + RETENTION, count, 0, 0)] + all;
      log := log + [Created(id, count)];
      return Some(0);
    }

    /** Stopping is possible when no transaction is left. */
    method CanStop(now: int) returns (stop: bool)
      modifies this`all
      ensures all == Cleaned(old(all), now) && (stop <==> all == [])
    {
      Cleanup(now);
      stop := |all| == 0;
    }

    /**
     Processes a received request, the installation being done already. The
     table stays accurate. A report that is given is the state of its
     transaction. An outcome that cannot be recorded, the transaction being
     missing and the count unknown, is an error.
     */
    method Process(req: Receiver, done: int, now: int, later: int) returns (rc: int, reply: Option<Status>)
      requires Accurate(all, log)
      modifies this, req
      ensures Accurate(all, log)
      ensures (all, log) == Processed(old(all), old(log), old(req.View()), done, now, later)
      ensures reply.Some? ==> old(req.kind) == GetStatus && old(req.transid).Some? && reply.value == StatusAfter(old(log), old(req.transid).value)
      ensures old(req.kind) == Unset ==> rc < 0
      ensures old(req.kind) in {CheckAddPackage, CheckRemovePackage} ==> rc == 0 && req.View() == old(req.View())
      ensures rc < 0 ==> req.scode != 0
      ensures old(req.kind) in {AddPackage, RemovePackage} && done < 0 && old(req.scode) == 0 ==> req.scode == done
      ensures old(req.kind) in {AddPackage, RemovePackage} ==>
                rc == if Unrecorded(old(all), old(log), old(req.View()), now, later) then -ENOMEM else done
      ensures old(req.kind) == GetStatus ==> if reply == None then rc < 0 else rc == |StatusText(reply.value)|
      ensures old(req.kind) == GetStatus && old(req.transid).Some? ==>
                (all, log, reply) == Report(old(all), old(log), old(req.transid).value, now)
    {
      hide Accurate, Get, Tallies, Distinct, StatusAfter;
      rc, reply := 0, None;
      ProcessedKeeps(all, log, req.View(), done, now, later);
      match req.kind {
        case Unset =>
          rc := req.Fail(-EINVAL);
        case CheckAddPackage =>
        case CheckRemovePackage =>
        case GetStatus =>
          rc, reply := ReportStatus(req, now);
        case _ =>
          rc := done;
          if rc < 0 {
            var _ := req.Fail(rc);
          }
          if req.transid.Some? {
            rc := RecordOutcome(req, rc, now, later);
          }
      }
    }

    method RecordOutcome(req: Receiver, done: int, now: int, later: int) returns (rc: int)
      requires req.transid.Some? && Accurate(all, log) && (done < 0 ==> req.scode != 0)
      modifies this, req
      ensures req.transid == old(req.transid) && req.count == old(req.count) && req.kind == old(req.kind)
      ensures (all, log) == Record(old(all), old(log), req.transid.value, req.count, done >= 0, now, later)
      ensures rc == if Get(old(all), old(log), req.transid.value, req.count, now, later).2 == None then -ENOMEM else done
      ensures rc < 0 ==> req.scode != 0
      ensures old(req.scode) != 0 ==> req.scode == old(req.scode)
    {
      hide Accurate, Get;
      rc := done;
      GetKeeps(all, log, req.transid.value, req.count, now, later);
      var at := GetTransaction(req.transid.value, req.count, now, later);
      if at == None {
        rc := req.Fail(-ENOMEM);
      } else {
        all := all[at.value := Bump(all[at.value], rc >= 0)];
        log := log + [Recorded(req.transid.value, rc >= 0)];
      }
    }

    method ReportStatus(req: Receiver, now: int) returns (rc: int, reply: Option<Status>)
      requires Accurate(all, log)
      modifies this, req
      ensures req.kind == old(req.kind) && req.transid == old(req.transid)
      ensures req.transid.Some? ==> (all, log, reply) == Report(old(all), old(log), req.transid.value, now)
      ensures req.transid == None ==> all == old(all) && log == old(log) && reply == None
      ensures reply.Some? ==> req.transid.Some? && reply.value == StatusAfter(old(log), req.transid.value)
      ensures (rc < 0 ==> req.scode != 0) && if reply == None then rc < 0 else rc == |StatusText(reply.value)|
    {
      hide Accurate, Get;
      rc, reply := 0, None;
      if req.transid == None {
        rc := req.Fail(-EINVAL);
      } else {
        GetKeeps(all, log, req.transid.value, 0, now, now);
        ReportKeeps(all, log, req.transid.value, now);
        var at := GetTransaction(req.transid.value, 0, now, now);
        if at == None {
          rc := req.Fail(-ENOMEM);
        } else {
          var e := all[at.value];
          reply := Some(Status(Signed(e.count), Signed(e.success), Signed(e.fail)));
          rc := |StatusText(reply.value)|;
          log := log + [Reported(req.transid.value, reply.value)];
          all := all[..at.value] + all[at.value + 1..];
        }
      }
    }
  }
}
