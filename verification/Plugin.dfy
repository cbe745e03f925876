/**
 The rpm plugin (src/rpm-plugin/redpesk.c): it records the elements of a
 transaction set, numbers them and sends one message per element, the removals
 before the transaction and the additions after it.
 */
module Plugin {
  import opened Client
  import opened Errors
  import opened Options
  import opened Request
  import opened Wire

  datatype Way = Adding | Removing

  /** An element of a transaction set; other types of elements have no way. */
  datatype Element = Element(way: Option<Way>, name: string, files: seq<string>)

  datatype Record = Record(ts: nat, way: Way, index: nat, count: nat, element: Element)

  /** Root directory of the set, and the identifiers found in the environment. */
  datatype Environment = Environment(root: Option<string>, transid: Option<string>, redpakid: Option<string>)

  function OperationOf(way: Way, check: bool): Operation {
    match way
    case Adding => if check then CheckAdd else Add
    case Removing => if check then CheckRemove else Remove
  }

  function MessageOf(r: Record, check: bool, env: Environment): Message {
    Message(OperationOf(r.way, check), r.element.name, r.index, r.count,
            env.root, env.transid, env.redpakid, r.element.files)
  }

  // ------------------------------------------------------- iterating on records

  /** What the callbacks of the iteration do. */
  datatype Action = Count(n: nat) | Number(way: Way) | Perform(way: Way, check: bool) | DropAll

  /** The record after its callback; `idx` is the last index given. */
  function Visit(r: Record, a: Action, idx: nat): Record {
    match a
    case Count(n) => r.(count := n)
    case Number(way) => if r.way == way then r.(index := idx + 1) else r
    case _ => r
  }

  function NextIndex(r: Record, a: Action, idx: nat): nat {
    if a.Number? && r.way == a.way then idx + 1 else idx
  }

  predicate Drops(r: Record, a: Action) {
    match a
    case Perform(way, _) => r.way == way
    case DropAll => true
    case _ => false
  }

  /** The records left by an iteration on a set, and the last index given. */
  function Walk(rs: seq<Record>, ts: nat, a: Action, idx: nat): (seq<Record>, nat) {
    if rs == [] then ([], idx)
    else
      var r := rs[|rs| - 1];
      var (left, k) := Walk(rs[..|rs| - 1], ts, a, idx);
      if r.ts != ts then (left + [r], k)
      else ((if Drops(r, a) then left else left + [Visit(r, a, k)]), NextIndex(r, a, k))
  }

  /** The messages made by an iteration on a set. */
  function Messages(rs: seq<Record>, ts: nat, a: Action, env: Environment): seq<Message> {
    if rs == [] then []
    else
      var r := rs[|rs| - 1];
      Messages(rs[..|rs| - 1], ts, a, env) +
      (if r.ts == ts && a.Perform? && r.way == a.way then [MessageOf(r, a.check, env)] else [])
  }

  /** The records of a set, and those of the other sets. */
  function Of(rs: seq<Record>, ts: nat): seq<Record> {
    if rs == [] then []
    else Of(rs[..|rs| - 1], ts) + (if rs[|rs| - 1].ts == ts then [rs[|rs| - 1]] else [])
  }

  function Except(rs: seq<Record>, ts: nat): seq<Record> {
    if rs == [] then []
    else Except(rs[..|rs| - 1], ts) + (if rs[|rs| - 1].ts == ts then [] else [rs[|rs| - 1]])
  }

  function Chosen(rs: seq<Record>, way: Way): seq<Record> {
    if rs == [] then []
    else Chosen(rs[..|rs| - 1], way) + (if rs[|rs| - 1].way == way then [rs[|rs| - 1]] else [])
  }

  lemma OfSnoc(rs: seq<Record>, r: Record, ts: nat)
    ensures Of(rs + [r], ts) == Of(rs, ts) + (if r.ts == ts then [r] else [])
    ensures Except(rs + [r], ts) == Except(rs, ts) + (if r.ts == ts then [] else [r])
  {
    assert (rs + [r])[..|rs + [r]| - 1] == rs;
  }

  lemma ChosenSnoc(rs: seq<Record>, r: Record, way: Way)
    ensures Chosen(rs + [r], way) == Chosen(rs, way) + (if r.way == way then [r] else [])
  {
    assert (rs + [r])[..|rs + [r]| - 1] == rs;
  }

  lemma WalkSnoc(rs: seq<Record>, r: Record, ts: nat, a: Action, idx: nat, env: Environment)
    ensures var (left, k) := Walk(rs, ts, a, idx);
            Walk(rs + [r], ts, a, idx) ==
            if r.ts != ts then (left + [r], k)
            else ((if Drops(r, a) then left else left + [Visit(r, a, k)]), NextIndex(r, a, k))
    ensures Messages(rs + [r], ts, a, env) == Messages(rs, ts, a, env) +
            (if r.ts == ts && a.Perform? && r.way == a.way then [MessageOf(r, a.check, env)] else [])
  {
    assert (rs + [r])[..|rs + [r]| - 1] == rs;
  }

  /** An iteration sees the records of its set only, as if they were alone. */
  lemma {:induction false} WalkIsLocal(rs: seq<Record>, ts: nat, a: Action, idx: nat, env: Environment)
    ensures Except(Walk(rs, ts, a, idx).0, ts) == Except(rs, ts)
    ensures Of(Walk(rs, ts, a, idx).0, ts) == Walk(Of(rs, ts), ts, a, idx).0
    ensures Walk(rs, ts, a, idx).1 == Walk(Of(rs, ts), ts, a, idx).1
    ensures Messages(rs, ts, a, env) == Messages(Of(rs, ts), ts, a, env)
  {
    if rs != [] {
      var init, r := rs[..|rs| - 1], rs[|rs| - 1];
      WalkIsLocal(init, ts, a, idx, env);
      var (left, k) := Walk(init, ts, a, idx);
      OfSnoc(left, r, ts);
      OfSnoc(left, Visit(r, a, k), ts);
      WalkSnoc(Of(init, ts), r, ts, a, idx, env);
      assert Of(init, ts) + [] == Of(init, ts);
    }
  }

  ghost predicate All(rs: seq<Record>, ts: nat) {
    forall i :: 0 <= i < |rs| ==> rs[i].ts == ts
  }

  lemma {:induction false} OfIsAll(rs: seq<Record>, ts: nat)
    ensures All(Of(rs, ts), ts)
  {
    if rs != [] { OfIsAll(rs[..|rs| - 1], ts); }
  }

  lemma {:induction false} OfAll(rs: seq<Record>, ts: nat)
    requires All(rs, ts)
    ensures Of(rs, ts) == rs && Except(rs, ts) == []
  {
    if rs != [] { OfAll(rs[..|rs| - 1], ts); }
  }

  /** Records numbered from an index on. */
  function NumberedFrom(rs: seq<Record>, idx: nat): (r: seq<Record>)
    ensures |r| == |rs|
  {
    if rs == [] then [] else NumberedFrom(rs[..|rs| - 1], idx) + [rs[|rs| - 1].(index := idx + |rs|)]
  }

  function Counted(rs: seq<Record>, n: nat): (r: seq<Record>)
    ensures |r| == |rs|
  {
    if rs == [] then [] else Counted(rs[..|rs| - 1], n) + [rs[|rs| - 1].(count := n)]
  }

  lemma {:induction false} CountedRecords(rs: seq<Record>, ts: nat, n: nat, idx: nat)
    requires All(rs, ts)
    ensures Walk(rs, ts, Count(n), idx).0 == Counted(rs, n) && All(Counted(rs, n), ts)
    ensures forall way :: Chosen(Counted(rs, n), way) == Counted(Chosen(rs, way), n)
  {
    if rs != [] {
      var init, r := rs[..|rs| - 1], rs[|rs| - 1];
      CountedRecords(init, ts, n, idx);
      forall way ensures Chosen(Counted(rs, n), way) == Counted(Chosen(rs, way), n) {
        ChosenSnoc(Counted(init, n), r.(count := n), way);
        assert (Chosen(init, way) + [r])[..|Chosen(init, way) + [r]| - 1] == Chosen(init, way);
        assert Chosen(init, way) + [] == Chosen(init, way);
      }
    }
  }

  /** Numbering gives the chosen records consecutive indices and leaves the others. */
  lemma {:induction false} NumberedRecords(rs: seq<Record>, ts: nat, way: Way, other: Way, idx: nat)
    requires All(rs, ts) && other != way
    ensures var (left, k) := Walk(rs, ts, Number(way), idx);
            && All(left, ts) && k == idx + |Chosen(rs, way)|
            && Chosen(left, way) == NumberedFrom(Chosen(rs, way), idx)
            && Chosen(left, other) == Chosen(rs, other)
  {
    if rs != [] {
      var init, r := rs[..|rs| - 1], rs[|rs| - 1];
      NumberedRecords(init, ts, way, other, idx);
      var (left, k) := Walk(init, ts, Number(way), idx);
      ChosenSnoc(left, Visit(r, Number(way), k), way);
      ChosenSnoc(left, Visit(r, Number(way), k), other);
      assert (Chosen(init, way) + [r])[..|Chosen(init, way) + [r]| - 1] == Chosen(init, way);
      assert Chosen(init, way) + [] == Chosen(init, way);
    }
  }

  function MessagesOf(rs: seq<Record>, check: bool, env: Environment): (r: seq<Message>)
    ensures |r| == |rs|
  {
    if rs == [] then [] else MessagesOf(rs[..|rs| - 1], check, env) + [MessageOf(rs[|rs| - 1], check, env)]
  }

  /** Performing sends the chosen records, in order, and leaves the others. */
  lemma {:induction false} PerformedRecords(rs: seq<Record>, ts: nat, way: Way, other: Way, check: bool, idx: nat, env: Environment)
    requires All(rs, ts) && other != way
    ensures Walk(rs, ts, Perform(way, check), idx).0 == Chosen(rs, other)
    ensures Messages(rs, ts, Perform(way, check), env) == MessagesOf(Chosen(rs, way), check, env)
  {
    if rs != [] {
      var init, r := rs[..|rs| - 1], rs[|rs| - 1];
      PerformedRecords(init, ts, way, other, check, idx, env);
      assert (Chosen(init, way) + [r])[..|Chosen(init, way) + [r]| - 1] == Chosen(init, way);
      assert Chosen(init, way) + [] == Chosen(init, way);
      assert MessagesOf(Chosen(init, way), check, env) + [] == MessagesOf(Chosen(init, way), check, env);
    }
  }

  lemma {:induction false} CleanedRecords(rs: seq<Record>, ts: nat, idx: nat)
    requires All(rs, ts)
    ensures Walk(rs, ts, DropAll, idx).0 == []
  {
    if rs != [] { CleanedRecords(rs[..|rs| - 1], ts, idx); }
  }

  // ------------------------------------------------------------ a set's messages

  /** The elements to handle, in the order of the records: last recorded first. */
  function Listed(es: seq<Element>): seq<Element> {
    if es == [] then []
    else
      var e := es[|es| - 1];
      (if e.way.Some? then [e] else []) + Listed(es[..|es| - 1])
  }

  function WithWay(es: seq<Element>, way: Way): seq<Element> {
    if es == [] then []
    else WithWay(es[..|es| - 1], way) + (if es[|es| - 1].way == Some(way) then [es[|es| - 1]] else [])
  }

  /** The records of elements, numbered after `idx` among `n`. */
  function Waiting(es: seq<Element>, ts: nat, way: Way, idx: nat, n: nat): (rs: seq<Record>)
    ensures |rs| == |es|
  {
    seq(|es|, i requires 0 <= i < |es| => Record(ts, way, idx + 1 + i, n, es[i]))
  }

  /** The messages of elements, numbered after `idx` among `n`. */
  function Announced(es: seq<Element>, way: Way, idx: nat, n: nat, check: bool, env: Environment): (ms: seq<Message>)
    ensures |ms| == |es|
  {
    seq(|es|, i requires 0 <= i < |es| =>
      Message(OperationOf(way, check), es[i].name, idx + 1 + i, n, env.root, env.transid, env.redpakid, es[i].files))
  }

  /** Records just made: their numbers are not set yet. */
  ghost predicate Recorded(rs: seq<Record>, es: seq<Element>, ts: nat) {
    && |rs| == |es|
    && forall i :: 0 <= i < |rs| ==> rs[i].ts == ts && rs[i].element == es[i] && es[i].way == Some(rs[i].way)
  }

  lemma {:induction false} ChosenRecorded(rs: seq<Record>, es: seq<Element>, ts: nat, way: Way)
    requires Recorded(rs, es, ts)
    ensures Recorded(Chosen(rs, way), WithWay(es, way), ts) && |Chosen(rs, way)| == |WithWay(es, way)|
    ensures forall r :: r in Chosen(rs, way) ==> r.way == way
  {
    if rs != [] { ChosenRecorded(rs[..|rs| - 1], es[..|es| - 1], ts, way); }
  }

  /** Numbering and counting fix everything the allocation left open. */
  lemma {:induction false} WaitingRecords(rs: seq<Record>, es: seq<Element>, ts: nat, way: Way, idx: nat, n: nat)
    requires Recorded(rs, es, ts) && forall r :: r in rs ==> r.way == way
    ensures NumberedFrom(Counted(rs, n), idx) == Waiting(es, ts, way, idx, n)
  {
    if rs != [] {
      hide NumberedFrom, Counted, Waiting;
      var k := |rs| - 1;
      WaitingRecords(rs[..k], es[..k], ts, way, idx, n);
      NumberedLast(rs, n, idx);
      WaitingLast(es, ts, way, idx, n);
      assert rs[k].way == way;
    }
  }

  lemma NumberedLast(rs: seq<Record>, n: nat, idx: nat)
    requires rs != []
    ensures var k := |rs| - 1;
            NumberedFrom(Counted(rs, n), idx) == NumberedFrom(Counted(rs[..k], n), idx) + [rs[k].(count := n, index := idx + |rs|)]
  {
    assert Counted(rs, n)[..|rs| - 1] == Counted(rs[..|rs| - 1], n);
  }

  lemma WaitingLast(es: seq<Element>, ts: nat, way: Way, idx: nat, n: nat)
    requires es != []
    ensures var k := |es| - 1;
            Waiting(es, ts, way, idx, n) == Waiting(es[..k], ts, way, idx, n) + [Record(ts, way, idx + |es|, n, es[k])]
  {
  }

  lemma {:induction false} AnnouncedWaiting(es: seq<Element>, ts: nat, way: Way, idx: nat, n: nat, check: bool, env: Environment)
    ensures MessagesOf(Waiting(es, ts, way, idx, n), check, env) == Announced(es, way, idx, n, check, env)
  {
    if es != [] {
      var k := |es| - 1;
      var all := Announced(es, way, idx, n, check, env);
      AnnouncedWaiting(es[..k], ts, way, idx, n, check, env);
      assert Waiting(es, ts, way, idx, n)[..k] == Waiting(es[..k], ts, way, idx, n);
      assert all[..k] == Announced(es[..k], way, idx, n, check, env);
      assert all == all[..k] + [all[k]];
    }
  }

  /** The three passes that number the records of a set. */
  function Numbering(rs: seq<Record>, ts: nat, n: nat): seq<Record> {
    var (half, k) := Walk(Walk(rs, ts, Count(n), 0).0, ts, Number(Removing), 0);
    Walk(half, ts, Number(Adding), k).0
  }

  lemma NumberingIsLocal(rs: seq<Record>, ts: nat, n: nat)
    ensures Except(Numbering(rs, ts, n), ts) == Except(rs, ts)
    ensures Of(Numbering(rs, ts, n), ts) == Numbering(Of(rs, ts), ts, n)
  {
    hide Walk, Of, Except;
    var env := Environment(None, None, None);
    WalkIsLocal(rs, ts, Count(n), 0, env);
    var counted := Walk(rs, ts, Count(n), 0).0;
    WalkIsLocal(counted, ts, Number(Removing), 0, env);
    var (half, k) := Walk(counted, ts, Number(Removing), 0);
    WalkIsLocal(half, ts, Number(Adding), k, env);
  }

  /** Removals are numbered first, then additions, from one on and without gap. */
  lemma NumberingPasses(rs: seq<Record>, ts: nat, n: nat)
    requires All(rs, ts)
    ensures var done := Numbering(rs, ts, n);
            var removes, adds := Counted(Chosen(rs, Removing), n), Counted(Chosen(rs, Adding), n);
            && All(done, ts)
            && Chosen(done, Removing) == NumberedFrom(removes, 0)
            && Chosen(done, Adding) == NumberedFrom(adds, |removes|)
  {
    hide Walk, Chosen, NumberedFrom, Counted;
    CountedRecords(rs, ts, n, 0);
    var counted := Counted(rs, n);
    NumberedRecords(counted, ts, Removing, Adding, 0);
    var (half, k) := Walk(counted, ts, Number(Removing), 0);
    NumberedRecords(half, ts, Adding, Removing, k);
  }

  lemma {:induction false} ChosenLength(rs: seq<Record>)
    ensures |Chosen(rs, Removing)| + |Chosen(rs, Adding)| == |rs|
  {
    if rs != [] {
      ChosenLength(rs[..|rs| - 1]);
      assert rs[|rs| - 1].way.Adding? || rs[|rs| - 1].way.Removing?;
    }
  }

  lemma {:induction false} InChosen(rs: seq<Record>, r: Record)
    requires r in rs
    ensures r in Chosen(rs, r.way)
  {
    if r != rs[|rs| - 1] { InChosen(rs[..|rs| - 1], r); }
  }

  lemma {:induction false} InOf(rs: seq<Record>, r: Record)
    requires r in rs
    ensures r in Of(rs, r.ts)
  {
    if r != rs[|rs| - 1] { InOf(rs[..|rs| - 1], r); }
  }

  lemma {:induction false} NumbersBounded(rs: seq<Record>, n: nat, idx: nat, i: nat)
    requires i < |rs|
    ensures var r := NumberedFrom(Counted(rs, n), idx)[i]; r.index == idx + 1 + i && r.count == n
  {
    var k := |rs| - 1;
    assert Counted(rs, n)[..k] == Counted(rs[..k], n);
    if i < k { NumbersBounded(rs[..k], n, idx, i); }
  }

  /** Every record of the set is numbered, within the number of them. */
  lemma AllNumbered(rs: seq<Record>, ts: nat, n: nat, r: Record)
    requires r in Numbering(rs, ts, n) && r.ts == ts
    ensures 1 <= r.index <= |Of(rs, ts)| && r.count == n
  {
    hide Numbering, NumberedFrom, Counted, Chosen, Of;
    var own := Of(rs, ts);
    OfIsAll(rs, ts);
    NumberingIsLocal(rs, ts, n);
    NumberingPasses(own, ts, n);
    InOf(Numbering(rs, ts, n), r);
    InChosen(Numbering(own, ts, n), r);
    ChosenLength(own);
    var removes, adds := Chosen(own, Removing), Chosen(own, Adding);
    if r.way == Removing {
      var i :| 0 <= i < |removes| && r == NumberedFrom(Counted(removes, n), 0)[i];
      NumbersBounded(removes, n, 0, i);
    } else {
      assert r.way == Adding;
      var i :| 0 <= i < |adds| && r == NumberedFrom(Counted(adds, n), |removes|)[i];
      NumbersBounded(adds, n, |removes|, i);
    }
  }

  /** Records left by an earlier run of the set push an index beyond the count. */
  lemma LeftoverOverruns(rs: seq<Record>, ts: nat, n: nat)
    requires All(rs, ts) && rs != []
    ensures (exists r :: r in Numbering(rs, ts, n) && r.index > r.count) <==> n < |rs|
  {
    hide Numbering, NumberedFrom, Counted, Chosen, Of;
    OfAll(rs, ts);
    NumberingPasses(rs, ts, n);
    ChosenLength(rs);
    var done := Numbering(rs, ts, n);
    var removes, adds := Chosen(rs, Removing), Chosen(rs, Adding);
    forall r | r in done ensures 1 <= r.index <= |rs| && r.count == n { AllNumbered(rs, ts, n, r); }
    if adds != [] {
      var k := |adds| - 1;
      NumbersBounded(adds, n, |removes|, k);
      var r := Chosen(done, Adding)[k];
      ChosenAmong(done, Adding, r);
      assert r.index == |rs|;
    } else {
      var k := |removes| - 1;
      NumbersBounded(removes, n, 0, k);
      var r := Chosen(done, Removing)[k];
      ChosenAmong(done, Removing, r);
      assert r.index == |rs|;
    }
  }

  lemma OverrunIff(rs: seq<Record>, ts: nat, n: nat)
    requires All(rs, ts) && n <= |rs|
    ensures (exists r :: r in Numbering(rs, ts, n) && r.index > r.count) <==> n < |rs|
  {
    if rs == [] {
      assert Numbering(rs, ts, n) == [];
    } else {
      hide Numbering;
      LeftoverOverruns(rs, ts, n);
    }
  }

  /** One element, and one record left of an earlier run: the second index is two of one. */
  lemma LeftoverExample(fresh0: Record, left: Record)
    requires fresh0.ts == left.ts == 0 && fresh0.way == left.way == Adding
    ensures var done := Numbering([fresh0, left], 0, 1); |done| == 2 && done[1].index == 2 && done[1].count == 1
  {
    var rs := [fresh0, left];
    var counted := [fresh0.(count := 1), left.(count := 1)];
    assert rs == [] + [fresh0] + [left] && counted == [] + [counted[0]] + [counted[1]];
    var env := Environment(None, None, None);
    WalkSnoc([], fresh0, 0, Count(1), 0, env);
    WalkSnoc([] + [fresh0], left, 0, Count(1), 0, env);
    assert Walk(rs, 0, Count(1), 0).0 == counted;
    WalkSnoc([], counted[0], 0, Number(Removing), 0, env);
    WalkSnoc([] + [counted[0]], counted[1], 0, Number(Removing), 0, env);
    assert Walk(counted, 0, Number(Removing), 0) == (counted, 0);
    WalkSnoc([], counted[0], 0, Number(Adding), 0, env);
    WalkSnoc([] + [counted[0]], counted[1], 0, Number(Adding), 0, env);
  }

  lemma {:induction false} ChosenAmong(rs: seq<Record>, way: Way, r: Record)
    requires r in Chosen(rs, way)
    ensures r in rs && r.way == way
  {
    var n := |rs| - 1;
    if r in Chosen(rs[..n], way) { ChosenAmong(rs[..n], way, r); }
  }

  /** What numbering makes of the records of elements just listed. */
  lemma NumberingFresh(rs: seq<Record>, es: seq<Element>, ts: nat)
    requires Recorded(rs, es, ts)
    ensures var done := Numbering(rs, ts, |es|);
            var removes, adds := WithWay(es, Removing), WithWay(es, Adding);
            && All(done, ts) && |removes| + |adds| == |es|
            && Chosen(done, Removing) == Waiting(removes, ts, Removing, 0, |es|)
            && Chosen(done, Adding) == Waiting(adds, ts, Adding, |removes|, |es|)
  {
    hide Numbering, Chosen, NumberedFrom, Counted, Waiting, WithWay, Recorded;
    AllRecorded(rs, es, ts);
    NumberingPasses(rs, ts, |es|);
    ChosenRecorded(rs, es, ts, Removing);
    ChosenRecorded(rs, es, ts, Adding);
    WaysSplit(es);
    WaitingRecords(Chosen(rs, Removing), WithWay(es, Removing), ts, Removing, 0, |es|);
    WaitingRecords(Chosen(rs, Adding), WithWay(es, Adding), ts, Adding, |WithWay(es, Removing)|, |es|);
  }

  lemma AllRecorded(rs: seq<Record>, es: seq<Element>, ts: nat)
    requires Recorded(rs, es, ts)
    ensures All(rs, ts) && |rs| == |es| && forall e :: e in es ==> e.way.Some?
  {
  }

  // -------------------------------------------------------------------- sending

  /** What leaves for a message: nothing when its text cannot be built. */
  function Outgoing(m: Message, junk: nat -> char): seq<string> {
    var r := PutLines(FRESH, Lines(m), junk);
    if r.Some? then [r.value.text] else []
  }

  function Outbox(ms: seq<Message>, junk: nat -> char): seq<string> {
    if ms == [] then [] else Outbox(ms[..|ms| - 1], junk) + Outgoing(ms[|ms| - 1], junk)
  }

  lemma {:induction false} OutboxConcat(a: seq<Message>, b: seq<Message>, junk: nat -> char)
    ensures Outbox(a + b, junk) == Outbox(a, junk) + Outbox(b, junk)
    decreases |b|
  {
    hide *;
    if b == [] {
      assert a + b == a;
      NothingSent(junk);
    } else {
      var init, m := b[..|b| - 1], b[|b| - 1];
      OutboxConcat(a, init, junk);
      assert a + b == (a + init) + [m] && b == init + [m];
      OutboxSnoc(a + init, m, junk);
      OutboxSnoc(init, m, junk);
      Associative(Outbox(a, junk), Outbox(init, junk), Outgoing(m, junk));
    }
  }

  lemma Associative(x: seq<string>, y: seq<string>, z: seq<string>)
    ensures x + (y + z) == (x + y) + z
  {
  }

  lemma NothingSent(junk: nat -> char)
    ensures Outbox([], junk) == []
  {
  }

  lemma OutboxSnoc(ms: seq<Message>, m: Message, junk: nat -> char)
    ensures Outbox(ms + [m], junk) == Outbox(ms, junk) + Outgoing(m, junk)
  {
    hide Outgoing;
    assert (ms + [m])[..|ms + [m]| - 1] == ms;
  }

  /** Messages that fit the buffer of a client leave as they are, one text each. */
  lemma {:induction false} OutboxFits(ms: seq<Message>, junk: nat -> char)
    requires forall i :: 0 <= i < |ms| ==> |Text(Lines(ms[i]))| < BUFFER0_SIZE
    ensures |Outbox(ms, junk)| == |ms|
    ensures forall i :: 0 <= i < |ms| ==> Outbox(ms, junk)[i] == Text(Lines(ms[i]))
  {
    hide Lines, Text, PutLines;
    if ms != [] {
      var n := |ms| - 1;
      OutboxFits(ms[..n], junk);
      PutLinesFits(FRESH, Lines(ms[n]), junk);
      assert FRESH.text + Text(Lines(ms[n])) == Text(Lines(ms[n]));
    }
  }

  method PutOptional(client: Builder, key: string, val: Option<string>, once: Once, junk: nat -> char) returns (rc: int)
    requires client.Valid() && client.state == Started && once !in client.memo
    modifies client`buffer, client`length, client`memo, client.buffer
    ensures client.Valid() && (client.buffer == old(client.buffer) || fresh(client.buffer))
    ensures client.memo <= old(client.memo) + {once}
    ensures var r := PutLines(old(client.View()), LineOf(key, val), junk);
            if r.Some? then rc == 0 && client.View() == r.value else rc == -EINVAL
  {
    rc := 0;
    if val.Some? {
      ghost var lines := LineOf(key, val);
      PutLinesPrefix(client.View(), lines, 0, junk);
      assert lines[..1] == lines;
      rc := client.PutOnce(key, val.value, once, junk);
    }
  }

  /** The lines of the three optional values. */
  method PutDetails(client: Builder, m: Message, junk: nat -> char) returns (rc: int)
    requires client.Valid() && client.state == Started && client.memo == {}
    modifies client`buffer, client`length, client`memo, client.buffer
    ensures client.Valid() && (client.buffer == old(client.buffer) || fresh(client.buffer))
    ensures var r := PutLines(old(client.View()), Details(m), junk);
            if r.Some? then rc == 0 && client.View() == r.value else rc == -EINVAL
  {
    hide PutLines, LineOf, Builder.View, Builder.Valid;
    var root, trans, redpak := LineOf("ROOT", m.root), LineOf("TRANSID", m.transid), LineOf("REDPAKID", m.redpakid);
    PutLinesConcat(client.View(), root, trans, junk);
    PutLinesConcat(client.View(), root + trans, redpak, junk);
    rc := PutOptional(client, "ROOT", m.root, RootDir, junk);
    if rc == 0 {
      rc := PutOptional(client, "TRANSID", m.transid, TransId, junk);
    }
    if rc == 0 {
      rc := PutOptional(client, "REDPAKID", m.redpakid, RedpakId, junk);
    }
  }

  method PutFiles(client: Builder, files: seq<string>, junk: nat -> char) returns (rc: int)
    requires client.Valid() && client.state == Started
    modifies client`buffer, client`length, client.buffer
    ensures client.Valid() && (client.buffer == old(client.buffer) || fresh(client.buffer))
    ensures var r := PutLines(old(client.View()), FileLines(files), junk);
            if r.Some? then rc == 0 && client.View() == r.value else rc == -EINVAL
  {
    hide PutLines, PutLine, Line, Builder.View, Builder.Valid;
    ghost var b := client.View();
    rc := 0;
    var i := 0;
    assert files[..0] == [];
    NoMoreLines(b, junk);
    while rc == 0 && i < |files|
      invariant i <= |files| && client.Valid() && (client.buffer == old(client.buffer) || fresh(client.buffer))
      invariant var r := PutLines(b, FileLines(files[..i]), junk);
                if r.Some? then rc == 0 && client.View() == r.value else rc == -EINVAL
    {
      FileLinesNext(b, files, i, junk);
      rc := client.Put("FILE", files[i], junk);
      i := i + 1;
    }
    assert rc == 0 ==> files[..i] == files;
    assert rc != 0 ==> PutLines(b, FileLines(files), junk) == None by {
      if rc != 0 { FileLinesFailed(b, files, i, junk); }
    }
  }

  lemma NoMoreLines(b: Room, junk: nat -> char)
    requires b.size > 0
    ensures PutLines(b, [], junk) == Some(b)
  {
  }

  lemma FileLinesNext(b: Room, files: seq<string>, i: nat, junk: nat -> char)
    requires b.size > 0 && i < |files|
    ensures var r := PutLines(b, FileLines(files[..i]), junk);
            PutLines(b, FileLines(files[..i + 1]), junk) == if r == None then None else PutLine(r.value, Line("FILE", files[i]), junk)
  {
    var all := FileLines(files[..i + 1]);
    assert files[..i + 1][..i] == files[..i];
    assert all[..|all| - 1] == FileLines(files[..i]);
  }

  lemma {:induction false} FileLinesFailed(b: Room, files: seq<string>, i: nat, junk: nat -> char)
    requires b.size > 0 && i <= |files| && PutLines(b, FileLines(files[..i]), junk) == None
    ensures PutLines(b, FileLines(files), junk) == None
    decreases |files| - i
  {
    if i == |files| {
      assert files[..i] == files;
    } else {
      FileLinesNext(b, files, i, junk);
      FileLinesFailed(b, files, i + 1, junk);
    }
  }

  /** Builds the message of a record in a client just initialised. */
  method MakeMessage(client: Builder, m: Message, junk: nat -> char) returns (rc: int)
    requires client.Valid() && client.View() == FRESH && m.index <= INT_MAX && m.count <= INT_MAX
    modifies client, client.buffer
    ensures client.Valid()
    ensures var r := PutLines(FRESH, Lines(m), junk);
            if r.Some? then rc == 0 && client.View() == r.value else rc == -EINVAL
  {
    hide PutLines, FileLines, Details, OpeningOf, Builder.View, Builder.Valid, Line, Word;
    ghost var head, mid, tail := Opening(m), Details(m), FileLines(m.files);
    ghost var last := Line("END", Word(m.op));
    PutLinesConcat(FRESH, head, mid, junk);
    PutLinesConcat(FRESH, head + mid, tail, junk);
    PutLinesConcat(FRESH, head + mid + tail, [last], junk);
    rc := client.Begin(m.op, m.package, m.index, m.count, junk);
    if rc == 0 {
      rc := PutDetails(client, m, junk);
    }
    if rc == 0 {
      rc := PutFiles(client, m.files, junk);
    }
    if rc == 0 {
      PutLinesLast(client.View(), last, junk);
      rc := client.End(junk);
    }
  }

  lemma PutLinesLast(b: Room, line: string, junk: nat -> char)
    requires b.size > 0
    ensures PutLines(b, [line], junk) == PutLine(b, line, junk)
  {
    PutLinesPrefix(b, [line], 0, junk);
    assert [line][..1] == [line];
  }

  // ------------------------------------------------------------------ the hooks

  lemma WalkNext(rs: seq<Record>, j: nat, ts: nat, a: Action, idx: nat, env: Environment)
    requires j < |rs|
    ensures var r := rs[j];
            var (left, k) := Walk(rs[..j], ts, a, idx);
            Walk(rs[..j + 1], ts, a, idx) ==
            if r.ts != ts then (left + [r], k)
            else ((if Drops(r, a) then left else left + [Visit(r, a, k)]), NextIndex(r, a, k))
    ensures var ms := Messages(rs[..j], ts, a, env);
            Messages(rs[..j + 1], ts, a, env) ==
            if rs[j].ts == ts && a.Perform? && rs[j].way == a.way then ms + [MessageOf(rs[j], a.check, env)] else ms
  {
    assert rs[..j + 1] == rs[..j] + [rs[j]];
    WalkSnoc(rs[..j], rs[j], ts, a, idx, env);
  }

  lemma WalkNone(ts: nat, a: Action, idx: nat, env: Environment, junk: nat -> char)
    ensures Walk([], ts, a, idx) == ([], idx) && Messages([], ts, a, env) == [] && Outbox([], junk) == []
  {
  }

  lemma NothingListed(ts: nat)
    ensures Listed([]) == [] && Recorded([], [], ts)
  {
  }

  lemma ListedNext(es: seq<Element>, i: nat)
    requires i < |es|
    ensures Listed(es[..i + 1]) == if es[i].way.Some? then [es[i]] + Listed(es[..i]) else Listed(es[..i])
  {
    assert es[..i + 1][..i] == es[..i] && es[..i + 1][i] == es[i];
    assert [] + Listed(es[..i]) == Listed(es[..i]);
  }

  lemma RecordedMore(rs: seq<Record>, es: seq<Element>, ts: nat, r: Record)
    requires Recorded(rs, es, ts) && r.ts == ts && r.element.way == Some(r.way)
    ensures Recorded([r] + rs, [r.element] + es, ts)
  {
  }

  lemma InFront(r: Record, made: seq<Record>, older: seq<Record>)
    ensures [r] + (made + older) == [r] + made + older
  {
  }

  /** The numbers of a record of the set are C integers. */
  ghost predicate InRange(rs: seq<Record>, ts: nat) {
    forall r :: r in rs && r.ts == ts ==> r.index <= INT_MAX && r.count <= INT_MAX
  }

  class Hooks {
    /** The records of all the sets, and the texts sent so far. */
    var records: seq<Record>
    var sent: seq<string>

    constructor ()
      ensures records == [] && sent == []
    {
      records, sent := [], [];
    }

    /** Sends the message of a record. */
    method Send(r: Record, check: bool, env: Environment, junk: nat -> char)
      requires r.index <= INT_MAX && r.count <= INT_MAX
      modifies this`sent
      ensures sent == old(sent) + Outgoing(MessageOf(r, check, env), junk)
    {
      hide PutLines, Lines;
      var client := new Builder();
      var rc := MakeMessage(client, MessageOf(r, check, env), junk);
      if rc == 0 {
        sent := sent + [client.buffer[..client.length]];
      }
    }

    /** Applies a callback to each record of a set, dropping those it says to drop. */
    method ForEach(ts: nat, a: Action, idx: nat, env: Environment, junk: nat -> char) returns (last: nat)
      requires a.Perform? ==> InRange(records, ts)
      modifies this
      ensures (records, last) == Walk(old(records), ts, a, idx)
      ensures sent == old(sent) + Outbox(Messages(old(records), ts, a, env), junk)
    {
      hide Walk, Messages, Outbox, Outgoing, MessageOf, Visit, NextIndex, Drops;
      ghost var was, j := records, 0;
      var i := 0;
      last := idx;
      WalkNone(ts, a, idx, env, junk);
      assert was[..0] == [] && records[..0] == [];
      while i < |records|
        invariant i <= |records| && j <= |was|
        invariant (records[..i], last) == Walk(was[..j], ts, a, idx)
        invariant records[i..] == was[j..]
        invariant sent == old(sent) + Outbox(Messages(was[..j], ts, a, env), junk)
        decreases |records| - i
      {
        WalkNext(was, j, ts, a, idx, env);
        var it := records[i];
        assert it == records[i..][0] == was[j] && records[i + 1..] == records[i..][1..] == was[j..][1..] == was[j + 1..];
        if it.ts != ts {
          assert records[..i + 1] == records[..i] + [it];
          i := i + 1;
        } else {
          if a.Perform? && it.way == a.way {
            OutboxSnoc(Messages(was[..j], ts, a, env), MessageOf(it, a.check, env), junk);
            Send(it, a.check, env, junk);
          }
          if Drops(it, a) {
            records := records[..i] + records[i + 1..];
          } else {
            records := records[..i] + [Visit(it, a, last)] + records[i + 1..];
            i := i + 1;
          }
          last := NextIndex(it, a, last);
        }
        j := j + 1;
      }
      assert was[..j] == was && records[..i] == records;
    }

    /** Records the elements of a set. */
    method RecordAll(ts: nat, elements: seq<Element>) returns (elecnt: nat, ghost made: seq<Record>)
      modifies this`records
      ensures records == made + old(records) && elecnt == |made| <= |elements|
      ensures Recorded(made, Listed(elements), ts)
    {
      hide Listed, Recorded;
      elecnt, made := 0, [];
      var idx := 0;
      assert elements[..0] == [];
      NothingListed(ts);
      while idx < |elements|
        invariant idx <= |elements| && elecnt == |made| <= idx
        invariant records == made + old(records)
        invariant Recorded(made, Listed(elements[..idx]), ts)
      {
        var te := elements[idx];
        ListedNext(elements, idx);
        if te.way.Some? {
          var index: nat, count: nat := *, *;
          var it := Record(ts, te.way.value, index, count, te);
          RecordedMore(made, Listed(elements[..idx]), ts, it);
          records := [it] + records;
          InFront(it, made, old(records));
          elecnt, made := elecnt + 1, [it] + made;
        }
        idx := idx + 1;
      }
      assert elements[..idx] == elements;
    }

    /** Numbers the records of a set. */
    method NumberAll(ts: nat, elecnt: nat, env: Environment, junk: nat -> char)
      modifies this
      ensures records == Numbering(old(records), ts, elecnt) && sent == old(sent)
    {
      hide Walk;
      NotSent(records, ts, Count(elecnt), env, junk);
      var last := ForEach(ts, Count(elecnt), 0, env, junk);
      NotSent(records, ts, Number(Removing), env, junk);
      last := ForEach(ts, Number(Removing), 0, env, junk);
      NotSent(records, ts, Number(Adding), env, junk);
      last := ForEach(ts, Number(Adding), last, env, junk);
    }

    /** Sends the records of a set that go one way, and drops them. */
    method PerformAll(ts: nat, way: Way, other: Way, check: bool, env: Environment, junk: nat -> char)
      requires InRange(records, ts) && way != other
      modifies this
      ensures Except(records, ts) == Except(old(records), ts)
      ensures Of(records, ts) == Chosen(Of(old(records), ts), other)
      ensures sent == old(sent) + Outbox(MessagesOf(Chosen(Of(old(records), ts), way), check, env), junk)
    {
      hide Walk, Messages, Of, Except, Chosen, MessagesOf, Outbox;
      var a := Perform(way, check);
      WalkIsLocal(records, ts, a, 0, env);
      OfIsAll(records, ts);
      PerformedRecords(Of(records, ts), ts, way, other, check, 0, env);
      var last := ForEach(ts, a, 0, env, junk);
    }

    /**
     Before the transaction: records its elements, numbers them and sends the
     removals. Records of other sets stay. When nothing was left of this set, its
     messages are numbered as they should; an index exceeds the count exactly when
     something was.
     */
    method Pre(ts: nat, elements: seq<Element>, test: bool, noPreun: bool, env: Environment, junk: nat -> char)
      returns (ghost numbered: seq<Record>)
      requires |Of(records, ts)| + |elements| <= INT_MAX
      modifies this
      ensures Except(records, ts) == Except(old(records), ts) && InRange(records, ts)
      ensures Of(old(records), ts) == [] ==>
        Prepared(Of(records, ts), ts, Listed(elements), test || !noPreun) &&
        sent == old(sent) + (if test || !noPreun then Outbox(Removals(Listed(elements), test, env), junk) else [])
      ensures (exists r :: r in numbered && r.index > r.count) <==> Of(old(records), ts) != []
      ensures Of(records, ts) == (if test || !noPreun then Chosen(numbered, Adding) else numbered)
      ensures sent == old(sent) + (if test || !noPreun then Outbox(MessagesOf(Chosen(numbered, Removing), test, env), junk) else [])
    {
      hide Walk, Messages, Of, Except, Chosen, MessagesOf, Outbox, Numbering, Recorded, WithWay, Waiting, Announced, All, Listed;
      var elecnt, made := RecordAll(ts, elements);
      ghost var all := records;
      MadeRecords(made, Listed(elements), ts, old(records));
      NumberAll(ts, elecnt, env, junk);
      NumberingIsLocal(all, ts, elecnt);
      NumberedInRange(all, ts, elecnt);
      ghost var left := Of(records, ts);
      numbered := left;
      OfIsAll(all, ts);
      OverrunIff(Of(all, ts), ts, elecnt);
      if Of(old(records), ts) == [] {
        NumberingFresh(made, Listed(elements), ts);
        AnnouncedWaiting(WithWay(Listed(elements), Removing), ts, Removing, 0, elecnt, test, env);
      }
      if test || !noPreun {
        ghost var before := records;
        PerformAll(ts, Removing, Adding, test, env, junk);
        ChosenTwice(left);
        LeftInRange(before, records, ts);
      }
    }

    /** After the transaction: sends the additions, unless it failed, and forgets the set. */
    method Post(ts: nat, ok: bool, test: bool, noPost: bool, env: Environment, junk: nat -> char)
      requires InRange(records, ts)
      modifies this
      ensures Except(records, ts) == Except(old(records), ts) && Of(records, ts) == []
      ensures sent == old(sent) +
        if ok && (test || !noPost) then Outbox(MessagesOf(Chosen(Of(old(records), ts), Adding), test, env), junk) else []
    {
      hide Walk, Messages, Of, Except, Chosen, MessagesOf, Outbox;
      if ok && (test || !noPost) {
        PerformAll(ts, Adding, Removing, test, env, junk);
      }
      WalkIsLocal(records, ts, DropAll, 0, env);
      OfIsAll(records, ts);
      CleanedRecords(Of(records, ts), ts, 0);
      NotSent(records, ts, DropAll, env, junk);
      var last := ForEach(ts, DropAll, 0, env, junk);
    }
  }

  /** The messages of the removals of a set. */
  function Removals(es: seq<Element>, check: bool, env: Environment): seq<Message> {
    Announced(WithWay(es, Removing), Removing, 0, |es|, check, env)
  }

  /** The messages of the additions of a set, numbered after the removals. */
  function Additions(es: seq<Element>, check: bool, env: Environment): seq<Message> {
    Announced(WithWay(es, Adding), Adding, |WithWay(es, Removing)|, |es|, check, env)
  }

  /** The records of a set once its removals are sent, or held back. */
  ghost predicate Prepared(rs: seq<Record>, ts: nat, es: seq<Element>, removed: bool) {
    && Chosen(rs, Removing) == (if removed then [] else Waiting(WithWay(es, Removing), ts, Removing, 0, |es|))
    && Chosen(rs, Adding) == Waiting(WithWay(es, Adding), ts, Adding, |WithWay(es, Removing)|, |es|)
  }

  lemma {:induction false} OfConcat(a: seq<Record>, b: seq<Record>, ts: nat)
    ensures Of(a + b, ts) == Of(a, ts) + Of(b, ts) && Except(a + b, ts) == Except(a, ts) + Except(b, ts)
    decreases |b|
  {
    if b == [] {
      assert a + b == a;
    } else {
      assert (a + b)[..|a + b| - 1] == a + b[..|b| - 1];
      OfConcat(a, b[..|b| - 1], ts);
    }
  }

  lemma MadeRecords(made: seq<Record>, es: seq<Element>, ts: nat, older: seq<Record>)
    requires Recorded(made, es, ts)
    ensures Except(made + older, ts) == Except(older, ts) && |made| == |es|
    ensures Of(made + older, ts) == made + Of(older, ts)
    ensures Of(older, ts) == [] ==> Of(made + older, ts) == made
  {
    AllRecorded(made, es, ts);
    OfConcat(made, older, ts);
    OfAll(made, ts);
  }

  lemma NumberedInRange(rs: seq<Record>, ts: nat, n: nat)
    requires |Of(rs, ts)| <= INT_MAX && n <= INT_MAX
    ensures InRange(Numbering(rs, ts, n), ts)
  {
    forall r | r in Numbering(rs, ts, n) && r.ts == ts ensures r.index <= INT_MAX && r.count <= INT_MAX {
      AllNumbered(rs, ts, n, r);
    }
  }

  lemma {:induction false} OfAmong(rs: seq<Record>, ts: nat, r: Record)
    requires r in Of(rs, ts)
    ensures r in rs && r.ts == ts
  {
    var n := |rs| - 1;
    if r in Of(rs[..n], ts) { OfAmong(rs[..n], ts, r); }
  }

  lemma LeftInRange(rs: seq<Record>, left: seq<Record>, ts: nat)
    requires InRange(rs, ts) && Of(left, ts) == Chosen(Of(rs, ts), Adding)
    ensures InRange(left, ts)
  {
    forall r | r in left && r.ts == ts ensures r.index <= INT_MAX && r.count <= INT_MAX {
      InOf(left, r);
      ChosenAmong(Of(rs, ts), Adding, r);
      OfAmong(rs, ts, r);
    }
  }

  lemma {:induction false} ChosenTwice(rs: seq<Record>)
    ensures Chosen(Chosen(rs, Adding), Adding) == Chosen(rs, Adding)
    ensures Chosen(Chosen(rs, Adding), Removing) == []
  {
    if rs != [] {
      var init, r := rs[..|rs| - 1], rs[|rs| - 1];
      ChosenTwice(init);
      ChosenSnoc(Chosen(init, Adding), r, Adding);
      ChosenSnoc(Chosen(init, Adding), r, Removing);
      assert Chosen(init, Adding) + [] == Chosen(init, Adding);
    }
  }

  lemma {:induction false} NoMessages(rs: seq<Record>, ts: nat, a: Action, env: Environment)
    requires !a.Perform?
    ensures Messages(rs, ts, a, env) == []
  {
    if rs != [] {
      hide MessageOf;
      NoMessages(rs[..|rs| - 1], ts, a, env);
    }
  }

  lemma NotSent(rs: seq<Record>, ts: nat, a: Action, env: Environment, junk: nat -> char)
    requires !a.Perform?
    ensures Outbox(Messages(rs, ts, a, env), junk) == []
  {
    hide Messages;
    NoMessages(rs, ts, a, env);
  }

  /** What is kept of all the records but those of a set keeps the records of the other sets. */
  lemma {:induction false} OtherSets(rs: seq<Record>, ts: nat, other: nat)
    requires ts != other
    ensures Of(rs, other) == Of(Except(rs, ts), other)
  {
    if rs != [] {
      var init, r := rs[..|rs| - 1], rs[|rs| - 1];
      OtherSets(init, ts, other);
      OfSnoc(Except(init, ts), r, other);
      assert Except(init, ts) + [] == Except(init, ts);
    }
  }

  // -------------------------------------------------------- whole transactions

  lemma {:induction false} ListedHaveWay(es: seq<Element>)
    ensures forall e :: e in Listed(es) ==> e.way.Some?
    ensures |Listed(es)| <= |es|
  {
    if es != [] { ListedHaveWay(es[..|es| - 1]); }
  }

  lemma {:induction false} WaysSplit(es: seq<Element>)
    requires forall e :: e in es ==> e.way.Some?
    ensures |WithWay(es, Removing)| + |WithWay(es, Adding)| == |es|
  {
    if es != [] {
      var e := es[|es| - 1];
      WaysSplit(es[..|es| - 1]);
      assert e in es && (e.way.value.Adding? || e.way.value.Removing?);
    }
  }

  /** The messages of a set are numbered from one to their count, in sending order, removals first. */
  lemma ConsecutiveMessages(elements: seq<Element>, check: bool, env: Environment, i: nat)
    requires i < |Listed(elements)|
    ensures var es := Listed(elements);
            var ms := Removals(es, check, env) + Additions(es, check, env);
            && |ms| == |es| && ms[i].index == i + 1 && ms[i].count == |es|
            && ms[i].op == OperationOf(if i < |WithWay(es, Removing)| then Removing else Adding, check)
  {
    ListedHaveWay(elements);
    WaysSplit(Listed(elements));
  }

  ghost predicate CleanElements(es: seq<Element>) {
    forall e :: e in es ==> Clean(e.name) && forall f :: f in e.files ==> Clean(f)
  }

  lemma {:induction false} WithWayAmong(es: seq<Element>, way: Way, e: Element)
    requires e in WithWay(es, way)
    ensures e in es
  {
    var n := |es| - 1;
    if e in WithWay(es[..n], way) { WithWayAmong(es[..n], way, e); }
  }

  lemma {:induction false} ListedAmong(es: seq<Element>, e: Element)
    requires e in Listed(es)
    ensures e in es
  {
    var n := |es| - 1;
    if e in Listed(es[..n]) { ListedAmong(es[..n], e); }
  }

  lemma MessageSendable(elements: seq<Element>, check: bool, env: Environment, i: nat)
    requires i < |Listed(elements)| && |elements| <= INT_MAX
    requires CleanElements(elements) && CleanOption(env.root) && CleanOption(env.transid) && CleanOption(env.redpakid)
    ensures var es := Listed(elements);
            var ms := Removals(es, check, env) + Additions(es, check, env);
            i < |ms| && Sendable(ms[i])
  {
    hide Clean;
    ConsecutiveMessages(elements, check, env, i);
    ListedHaveWay(elements);
    var es := Listed(elements);
    var k := |WithWay(es, Removing)|;
    var e := if i < k then WithWay(es, Removing)[i] else WithWay(es, Adding)[i - k];
    WithWayAmong(es, if i < k then Removing else Adding, e);
    ListedAmong(elements, e);
  }

  /**
   What the daemon makes of a whole transaction: when the messages fit the
   buffer, each text is read back as the request of its element.
   */
  lemma TransactionUnderstood(elements: seq<Element>, check: bool, env: Environment, junk: nat -> char, i: nat)
    requires i < |Listed(elements)| && |elements| <= INT_MAX
    requires CleanElements(elements) && CleanOption(env.root) && CleanOption(env.transid) && CleanOption(env.redpakid)
    requires var es := Listed(elements);
             forall m :: m in Removals(es, check, env) + Additions(es, check, env) ==> |Text(Lines(m))| < BUFFER0_SIZE
    ensures var es := Listed(elements);
            var ms := Removals(es, check, env) + Additions(es, check, env);
            && |Outbox(ms, junk)| == |ms| == |es|
            && AddLines(INIT, Split(Outbox(ms, junk)[i]).0) == Requested(ms[i])
            && Requested(ms[i]).index == i + 1
  {
    hide Sendable, Text, Lines, AddLines, Split, Outbox, Clean, Announced, WithWay;
    var es := Listed(elements);
    var ms := Removals(es, check, env) + Additions(es, check, env);
    ConsecutiveMessages(elements, check, env, i);
    MessageSendable(elements, check, env, i);
    OutboxFits(ms, junk);
    MessageRoundTrip(ms[i]);
  }

  /** What a transaction sends: nothing of what its flags, or its failure, hold back. */
  function Planned(es: seq<Element>, test: bool, noPreun: bool, ok: bool, noPost: bool, env: Environment): seq<Message> {
    (if test || !noPreun then Removals(es, test, env) else []) +
    (if ok && (test || !noPost) then Additions(es, test, env) else [])
  }

  /** A transaction from its hook before to its hook after, with any flags and any outcome. */
  method Transaction(hooks: Hooks, ts: nat, elements: seq<Element>, test: bool, noPreun: bool, ok: bool, noPost: bool,
                     env: Environment, junk: nat -> char)
    requires Of(hooks.records, ts) == [] && |elements| <= INT_MAX
    modifies hooks
    ensures hooks.sent == old(hooks.sent) + Outbox(Planned(Listed(elements), test, noPreun, ok, noPost, env), junk)
    ensures Of(hooks.records, ts) == [] && Except(hooks.records, ts) == Except(old(hooks.records), ts)
  {
    hide Of, Except, Chosen, Outbox, Waiting, Announced, Listed, MessagesOf, WithWay, InRange;
    ghost var es := Listed(elements);
    ghost var adds, k := WithWay(es, Adding), |WithWay(es, Removing)|;
    ghost var numbered := hooks.Pre(ts, elements, test, noPreun, env, junk);
    AnnouncedWaiting(adds, ts, Adding, k, |es|, test, env);
    hooks.Post(ts, ok, test, noPost, env, junk);
    NothingSent(junk);
    OutboxConcat(if test || !noPreun then Removals(es, test, env) else [],
                 if ok && (test || !noPost) then Additions(es, test, env) else [], junk);
  }
}
