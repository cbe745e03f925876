/**
 What the table of transactions is for, one transaction at a time
 (src/afmpkg/afmpkg-request.c): an account that is opened by the first outcome
 with a count, kept for an hour, charged with outcomes, and closed by a report.
 */
module Ledger {
  import opened Options
  import opened Transactions

  /** What happens to the table, with the time at which it is cleaned and that at which an entry is made. */
  datatype Op =
    | Outcome(id: string, count: nat, ok: bool, now: int, later: int)
    | Ask(id: string, now: int)
    | Sweep(now: int)

  /** Table and log after one more operation. */
  function Done(all: seq<Entry>, log: seq<Event>, op: Op): (seq<Entry>, seq<Event>) {
    match op
    case Outcome(id, count, ok, now, later) => Record(all, log, id, count, ok, now, later)
    case Ask(id, now) => (Report(all, log, id, now).0, Report(all, log, id, now).1)
    case Sweep(now) => (Cleaned(all, now), log)
  }

  function AllDone(ops: seq<Op>): (seq<Entry>, seq<Event>) {
    if ops == [] then ([], [])
    else var (all, log) := AllDone(ops[..|ops| - 1]); Done(all, log, ops[|ops| - 1])
  }

  /** The account of one transaction. */
  datatype Account = Account(since: int, count: nat, good: nat, bad: nat)

  /** An account is closed an hour after it was opened. */
  function Kept(a: Option<Account>, now: int): Option<Account> {
    if a.Some? && now < a.value.since + 3600 then a else None
  }

  /** The account after the operations. */
  function AccountOf(ops: seq<Op>, id: string): Option<Account> {
    if ops == [] then None else Next(AccountOf(ops[..|ops| - 1], id), ops[|ops| - 1], id)
  }

  /** An account after one more operation. */
  function Next(a: Option<Account>, op: Op, id: string): Option<Account> {
    match op
    case Outcome(i, count, ok, now, later) => if i != id then Kept(a, now) else Charged(Kept(a, now), count, ok, later)
    case Ask(i, now) => if i != id then Kept(a, now) else None
    case Sweep(now) => Kept(a, now)
  }

  /** An outcome is charged; the account is opened if need be, which takes a count. */
  function Charged(a: Option<Account>, count: nat, ok: bool, later: int): Option<Account> {
    if a == None && count == 0 then None
    else
      var b := if a.Some? then a.value else Account(later, count, 0, 0);
      Some(if ok then b.(good := b.good + 1) else b.(bad := b.bad + 1))
  }

  // ------------------------------------------------------------------- refinement

  function EntryOf(all: seq<Entry>, id: string): Option<Entry> {
    var k := Find(all, id);
    if k < |all| then Some(all[k]) else None
  }

  /** The entry that stands for an account. */
  ghost predicate Stands(e: Option<Entry>, a: Option<Account>, id: string) {
    && (e.Some? <==> a.Some?)
    && (a.Some? ==>
          e.value == Entry(id, a.value.since + 3600, a.value.count, a.value.good % 0x1_0000_0000, (0 - a.value.bad) % 0x1_0000_0000))
  }

  lemma EntryIs(all: seq<Entry>, e: Entry)
    requires Distinct(all) && e in all
    ensures EntryOf(all, e.id) == Some(e)
  {
    var i :| 0 <= i < |all| && all[i] == e;
    var k := Find(all, e.id);
    assert k == i;
  }

  lemma NoEntry(all: seq<Entry>, id: string)
    requires forall e :: e in all ==> e.id != id
    ensures EntryOf(all, id) == None
  {
    assert forall i :: 0 <= i < |all| ==> all[i] in all;
  }

  lemma CleanedEntry(all: seq<Entry>, now: int, id: string)
    requires Distinct(all)
    ensures EntryOf(Cleaned(all, now), id) == if EntryOf(all, id).Some? && EntryOf(all, id).value.expire > now then EntryOf(all, id) else None
    ensures Distinct(Cleaned(all, now))
  {
    CleanedAmong(all, now);
    var kept := Cleaned(all, now);
    if EntryOf(all, id).Some? && EntryOf(all, id).value.expire > now {
      EntryIs(kept, EntryOf(all, id).value);
    } else {
      forall e | e in kept ensures e.id != id {
        if e.id == id { EntryIs(all, e); }
      }
      NoEntry(kept, id);
    }
  }

  /** One entry changes, or goes, or is put in front; the others stay. */
  lemma ChangedEntry(all: seq<Entry>, k: nat, e: Entry, id: string)
    requires Distinct(all) && k < |all| && e.id == all[k].id
    ensures Distinct(all[k := e])
    ensures EntryOf(all[k := e], id) == if id == e.id then Some(e) else EntryOf(all, id)
  {
    var r := all[k := e];
    assert forall i :: 0 <= i < |r| ==> r[i].id == all[i].id;
    assert r[k] == e;
    if id == e.id {
      EntryIs(r, e);
    } else if EntryOf(all, id).Some? {
      assert r[Find(all, id)] == all[Find(all, id)];
      EntryIs(r, EntryOf(all, id).value);
    } else {
      NoEntry(r, id);
    }
  }

  lemma GoneEntry(all: seq<Entry>, k: nat, id: string)
    requires Distinct(all) && k < |all|
    ensures EntryOf(all[..k] + all[k + 1..], id) == if id == all[k].id then None else EntryOf(all, id)
  {
    var r := all[..k] + all[k + 1..];
    assert forall i :: 0 <= i < |r| ==> r[i] == all[if i < k then i else i + 1];
    if id != all[k].id && EntryOf(all, id).Some? {
      var j := Find(all, id);
      assert r[if j < k then j else j - 1] == all[j];
      EntryIs(r, all[j]);
    } else {
      NoEntry(r, id);
    }
  }

  lemma NewEntry(all: seq<Entry>, e: Entry, id: string)
    ensures EntryOf([e] + all, id) == if id == e.id then Some(e) else EntryOf(all, id)
  {
    assert ([e] + all)[1..] == all;
  }

  lemma GetEntry(all: seq<Entry>, log: seq<Event>, id: string, count: nat, now: int, later: int, a: Option<Account>)
    requires Accurate(all, log) && Stands(EntryOf(all, id), a, id)
    ensures var (table, events, at) := Get(all, log, id, count, now, later);
            var b := if Kept(a, now).Some? then Kept(a, now) else if count != 0 then Some(Account(later, count, 0, 0)) else None;
            && Stands(EntryOf(table, id), b, id) && (at.Some? <==> b.Some?)
            && (at.Some? ==> at.value < |table| && EntryOf(table, id) == Some(table[at.value]) && table[at.value].id == id)
  {
    hide Cleaned, Accurate;
    GetKeeps(all, log, id, count, now, later);
    assert Distinct(all) by { Tidy(all, log); }
    CleanedEntry(all, now, id);
    NewEntry(Cleaned(all, now), Entry(id, later + RETENTION, count, 0, 0), id);
  }

  lemma Tidy(all: seq<Entry>, log: seq<Event>)
    requires Accurate(all, log)
    ensures Distinct(all)
  {
  }

  lemma GetOther(all: seq<Entry>, log: seq<Event>, id: string, count: nat, now: int, later: int, other: string, a: Option<Account>)
    requires Accurate(all, log) && other != id && Stands(EntryOf(all, other), a, other)
    ensures Stands(EntryOf(Get(all, log, id, count, now, later).0, other), Kept(a, now), other)
  {
    hide Cleaned, Accurate;
    Tidy(all, log);
    CleanedEntry(all, now, other);
    NewEntry(Cleaned(all, now), Entry(id, later + RETENTION, count, 0, 0), other);
  }

  lemma Bumped(e: Entry, a: Account, id: string, ok: bool)
    requires Stands(Some(e), Some(a), id)
    ensures Stands(Some(Bump(e, ok)), Some(if ok then a.(good := a.good + 1) else a.(bad := a.bad + 1)), id)
  {
    WrapUp(a.good);
    WrapDown(a.bad);
  }

  /** The table holds exactly the accounts. */
  lemma {:induction false} TableIsLedger(ops: seq<Op>, id: string)
    ensures var (all, log) := AllDone(ops); Accurate(all, log) && Stands(EntryOf(all, id), AccountOf(ops, id), id)
    decreases |ops|
  {
    hide Accurate, Stands, Get, Cleaned, Bump, Kept;
    if ops == [] {
      Empty(id);
    } else {
      var init, op := ops[..|ops| - 1], ops[|ops| - 1];
      TableIsLedger(init, id);
      var (all, log) := AllDone(init);
      OneDone(all, log, op, id, AccountOf(init, id));
    }
  }

  lemma Empty(id: string)
    ensures Accurate([], []) && Stands(EntryOf([], id), None, id)
  {
  }

  lemma OneDone(all: seq<Entry>, log: seq<Event>, op: Op, id: string, a: Option<Account>)
    requires Accurate(all, log) && Stands(EntryOf(all, id), a, id)
    ensures var (table, events) := Done(all, log, op);
            Accurate(table, events) && Stands(EntryOf(table, id), Next(a, op, id), id)
  {
    hide Accurate, Get, Cleaned, Bump, Find;
    match op {
      case Outcome(i, count, ok, now, later) =>
        OutcomeDone(all, log, op, id, a);
      case Ask(i, now) =>
        AskDone(all, log, op, id, a);
      case Sweep(now) =>
        CleanedKeeps(all, log, now);
        Tidy(all, log);
        CleanedEntry(all, now, id);
    }
  }

  lemma OutcomeDone(all: seq<Entry>, log: seq<Event>, op: Op, id: string, a: Option<Account>)
    requires op.Outcome? && Accurate(all, log) && Stands(EntryOf(all, id), a, id)
    ensures var (table, events) := Done(all, log, op);
            Accurate(table, events) && Stands(EntryOf(table, id), Next(a, op, id), id)
  {
    hide Accurate, Get, Cleaned, Bump, Find, Stands, EntryOf;
    var Outcome(i, count, ok, now, later) := op;
    RecordKeeps(all, log, i, count, ok, now, later);
    GetKeeps(all, log, i, count, now, later);
    var (table, events, at) := Get(all, log, i, count, now, later);
    Tidy(table, events);
    if i == id {
      GetEntry(all, log, id, count, now, later, a);
    } else {
      GetOther(all, log, i, count, now, later, id, a);
    }
    if at.Some? {
      var e := table[at.value];
      BumpId(e, ok);
      ChangedEntry(table, at.value, Bump(e, ok), id);
      if i == id {
        var b := if Kept(a, now).Some? then Kept(a, now) else Some(Account(later, count, 0, 0));
        Bumped(e, b.value, id, ok);
      }
    }
  }

  lemma BumpId(e: Entry, ok: bool)
    ensures Bump(e, ok).id == e.id
  {
  }

  lemma AskDone(all: seq<Entry>, log: seq<Event>, op: Op, id: string, a: Option<Account>)
    requires op.Ask? && Accurate(all, log) && Stands(EntryOf(all, id), a, id)
    ensures var (table, events) := Done(all, log, op);
            Accurate(table, events) && Stands(EntryOf(table, id), Next(a, op, id), id)
  {
    hide Accurate, Get, Cleaned, Find;
    var Ask(i, now) := op;
    ReportKeeps(all, log, i, now);
    GetKeeps(all, log, i, 0, now, now);
    var (table, events, at) := Get(all, log, i, 0, now, now);
    Tidy(table, events);
    if i == id {
      NoEntry(Report(all, log, i, now).0, id);
    } else {
      GetOther(all, log, i, 0, now, now, id, a);
      if at.Some? { GoneEntry(table, at.value, id); }
    }
  }

  /**
   A report is given exactly for a transaction whose account was opened less
   than an hour before and not reported since; it tells the count, the
   successes and, below zero, the failures.
   */
  lemma StatusAnswered(ops: seq<Op>, id: string, now: int)
    ensures var (all, log) := AllDone(ops);
            var a, reply := AccountOf(ops, id), Report(all, log, id, now).2;
            && (reply.Some? <==> a.Some? && now < a.value.since + 3600)
            && (reply.Some? && a.value.count < 0x8000_0000 && a.value.good < 0x8000_0000 && a.value.bad < 0x8000_0000 ==>
                  reply.value == Status(a.value.count, a.value.good, 0 - a.value.bad))
  {
    hide Accurate, Cleaned, Find;
    TableIsLedger(ops, id);
    var (all, log) := AllDone(ops);
    GetEntry(all, log, id, 0, now, now, AccountOf(ops, id));
  }

  /** The account after one more operation. */
  lemma AccountNext(ops: seq<Op>, op: Op, id: string)
    ensures AccountOf(ops + [op], id) == Next(AccountOf(ops, id), op, id)
  {
    assert (ops + [op])[..|ops + [op]| - 1] == ops;
  }

  /** Of requests that ended well, badly and well, the status after them is three, two and minus one. */
  lemma StatusExample(id: string, t: int)
    ensures var ops := [Outcome(id, 3, true, t, t)] + [Outcome(id, 3, false, t, t)] + [Outcome(id, 3, true, t, t)];
            var (all, log) := AllDone(ops);
            && Report(all, log, id, t + 3599).2 == Some(Status(3, 2, -1))
            && Report(all, log, id, t + 3600).2 == None
  {
    hide AllDone, Report, AccountOf;
    var a, b := Outcome(id, 3, true, t, t), Outcome(id, 3, false, t, t);
    var ops := [a] + [b] + [a];
    assert AccountOf([], id) == None by { NoAccount(id); }
    assert [] + [a] == [a];
    AccountNext([], a, id);
    AccountNext([a], b, id);
    AccountNext([a] + [b], a, id);
    assert AccountOf(ops, id) == Some(Account(t, 3, 2, 1));
    StatusAnswered(ops, id, t + 3599);
    StatusAnswered(ops, id, t + 3600);
  }

  lemma NoAccount(id: string)
    ensures AccountOf([], id) == None
  {
  }

  /** How it is written. */
  lemma StatusWritten()
    ensures StatusText(Status(3, 2, -1)) == "3 2 -1"
  {
  }
}
