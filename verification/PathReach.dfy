/**
 How far a walk comes that tells the entries after what lies below them
 (src/utils/path-entry.c, `do_foreach`): up to the first, in that order, whose
 path does not fit.
 */
module PathReach {
  import opened PathTree
  import opened PathWalk
  import opened PathText

  /** Is there room for the entry, in a walk that starts at `n`? */
  ghost predicate Passes(t: Tree, base: string, silent: bool, n: Node, m: Node, size: nat)
    requires t.Valid() && n in t.nodes && m in Below(t, n)
    reads t, t.nodes
  {
    Room(LengthBefore(t, base, silent, n, m), m, size)
  }

  /** The entries told are those of `all` before the first that does not pass. */
  ghost predicate Stops(t: Tree, base: string, silent: bool, n: Node, w: Walked, all: seq<Node>, size: nat)
    requires t.Valid() && n in t.nodes
    reads t, t.nodes
  {
    && (forall i :: 0 <= i < |all| ==> all[i] in Below(t, n) && (silent ==> all[i] != n))
    && |w.log| <= |all| && (w.ok <==> |w.log| == |all|)
    && (forall i :: 0 <= i < |w.log| ==> Passes(t, base, silent, n, all[i], size))
    && (|w.log| < |all| ==> !Passes(t, base, silent, n, all[|w.log|], size))
  }

  /** When an entry passes, those above it do. */
  lemma {:induction false} PassesUp(t: Tree, base: string, n: Node, m: Node, size: nat)
    requires t.Valid() && n in t.nodes && m in Below(t, n) && Passes(t, base, false, n, m, size)
    ensures Room(|base|, n, size)
    decreases |m.path|
  {
    hide Tree.Valid;
    if m != n {
      Up(t, n, m);
      Facts(t, m);
      PassesUp(t, base, n, m.parent, size);
    }
  }

  lemma StopsThen(t: Tree, text: string, n: Node, c: Node, done: Walked, more: Walked, all: seq<Node>, next: seq<Node>, size: nat)
    requires t.Valid() && n in t.nodes && c in n.children && c in t.nodes && next != []
    requires Stops(t, text, true, n, done, all, size) && Stops(t, text, false, c, more, next, size)
    ensures Stops(t, text, true, n, Then(done, more), all + next, size)
  {
    hide Tree.Valid, Spell, LengthBefore;
    SpellSelf(t, text, n);
    forall m | m in Below(t, c)
      ensures m in Below(t, n) && m != n && (Passes(t, text, true, n, m, size) <==> Passes(t, text, false, c, m, size))
    {
      FitsChild(t, text, true, n, c, m, size);
    }
  }

  lemma StopsAfter(t: Tree, base: string, n: Node, kids: Walked, all: seq<Node>, size: nat)
    requires t.Valid() && n in t.nodes && Room(|base|, n, size) && Stops(t, Extend(base, n), true, n, kids, all, size)
    ensures Stops(t, base, false, n, Emitted(n, Extend(base, n), false, false, kids), Around(n, false, false, all), size)
  {
    hide Tree.Valid, Spell, Extend;
    SelfBelow(t, n);
    forall m | m in Below(t, n) && m != n
      ensures Passes(t, base, false, n, m, size) <==> Passes(t, Extend(base, n), true, n, m, size)
    {
      SpellLoud(t, base, n, m);
    }
    assert LengthBefore(t, base, false, n, n) == |base|;
  }

  lemma StopsAtOnce(t: Tree, base: string, n: Node, all: seq<Node>, size: nat)
    requires t.Valid() && n in t.nodes && !Room(|base|, n, size) && all != [] && forall i :: 0 <= i < |all| ==> all[i] in Below(t, n)
    ensures Stops(t, base, false, n, Walked(false, []), all, size)
  {
    hide Tree.Valid;
    if Passes(t, base, false, n, all[0], size) { PassesUp(t, base, n, all[0], size); }
  }

  lemma OrderBelow(t: Tree, n: Node, before: bool, onlyAdded: bool)
    requires t.Valid() && n in t.nodes
    ensures var all := Order(t, n, before, onlyAdded);
            && (forall i :: 0 <= i < |all| ==> all[i] in Below(t, n)) && Distinct(all)
            && (forall m :: m in Below(t, n) && Selected(onlyAdded, m) ==> m in all)
  {
    hide Tree.Valid, Order, Ordered, Distinct;
    OrderTraverses(t, n, before, onlyAdded);
    var all := Order(t, n, before, onlyAdded);
    assert forall i :: 0 <= i < |all| ==> all[i] in all;
  }

  /** The walk over all the entries. */
  lemma {:induction false} TrailStopsAt(t: Tree, base: string, n: Node, size: nat)
    requires t.Valid() && n in t.nodes
    ensures Order(t, n, false, false) != []
    ensures Stops(t, base, false, n, Trail(t, base, n, false, false, size), Order(t, n, false, false), size)
    decreases |Below(t, n)|, 1, 0
  {
    hide Tree.Valid, Order, OrderKids, Trail, TrailKids, Stops, Below, Emitted;
    TrailIs(t, base, n, false, false, size);
    OrderIs(t, n, false, false);
    if Room(|base|, n, size) {
      TrailKidsStopAt(t, Extend(base, n), n, |n.children|, size);
      StopsAfter(t, base, n, TrailKids(t, Extend(base, n), n, |n.children|, false, false, size),
                 OrderKids(t, n, |n.children|, false, false), size);
    } else {
      OrderBelow(t, n, false, false);
      StopsAtOnce(t, base, n, Order(t, n, false, false), size);
    }
  }

  lemma {:induction false} TrailKidsStopAt(t: Tree, text: string, n: Node, k: nat, size: nat)
    requires t.Valid() && n in t.nodes && k <= |n.children|
    ensures Stops(t, text, true, n, TrailKids(t, text, n, k, false, false, size), OrderKids(t, n, k, false, false), size)
    decreases |Below(t, n)|, 0, k
  {
    hide Tree.Valid, Order, OrderKids, Trail, TrailKids, Below, Then;
    TrailIs(t, text, n, false, false, size);
    OrderIs(t, n, false, false);
    if k > 0 {
      hide Stops;
      TrailNext(t, text, n, k - 1, false, false, size);
      OrderNext(t, n, k - 1, false, false);
      TrailKidsStopAt(t, text, n, k - 1, size);
      var c := n.children[k - 1];
      TrailStopsAt(t, text, c, size);
      StopsThen(t, text, n, c, TrailKids(t, text, n, k - 1, false, false, size), Trail(t, text, c, false, false, size),
                OrderKids(t, n, k - 1, false, false), Order(t, c, false, false), size);
    }
  }

  // ----------------------------------------------- walks that tell an entry first

  lemma StopsBefore(t: Tree, base: string, n: Node, kids: Walked, all: seq<Node>, size: nat)
    requires t.Valid() && n in t.nodes && Room(|base|, n, size) && Stops(t, Extend(base, n), true, n, kids, all, size)
    ensures Stops(t, base, false, n, Emitted(n, Extend(base, n), true, false, kids), Around(n, true, false, all), size)
  {
    hide Tree.Valid, Spell, Extend;
    SelfBelow(t, n);
    forall m | m in Below(t, n) && m != n
      ensures Passes(t, base, false, n, m, size) <==> Passes(t, Extend(base, n), true, n, m, size)
    {
      SpellLoud(t, base, n, m);
    }
    assert LengthBefore(t, base, false, n, n) == |base|;
    var w, seen := Emitted(n, Extend(base, n), true, false, kids), [n] + all;
    assert |w.log| == |kids.log| + 1;
    forall i | 0 <= i < |w.log| ensures Passes(t, base, false, n, seen[i], size) {
      if i > 0 { assert seen[i] == all[i - 1]; }
    }
  }

  /** The same for a walk that tells an entry before what lies below it. */
  lemma {:induction false} TrailStopsPre(t: Tree, base: string, n: Node, size: nat)
    requires t.Valid() && n in t.nodes
    ensures Order(t, n, true, false) != []
    ensures Stops(t, base, false, n, Trail(t, base, n, true, false, size), Order(t, n, true, false), size)
    decreases |Below(t, n)|, 1, 0
  {
    hide Tree.Valid, Order, OrderKids, Trail, TrailKids, Stops, Below, Emitted;
    TrailIs(t, base, n, true, false, size);
    OrderIs(t, n, true, false);
    if Room(|base|, n, size) {
      TrailKidsStopPre(t, Extend(base, n), n, |n.children|, size);
      StopsBefore(t, base, n, TrailKids(t, Extend(base, n), n, |n.children|, true, false, size),
                  OrderKids(t, n, |n.children|, true, false), size);
    } else {
      OrderBelow(t, n, true, false);
      StopsAtOnce(t, base, n, Order(t, n, true, false), size);
    }
  }

  lemma {:induction false} TrailKidsStopPre(t: Tree, text: string, n: Node, k: nat, size: nat)
    requires t.Valid() && n in t.nodes && k <= |n.children|
    ensures Stops(t, text, true, n, TrailKids(t, text, n, k, true, false, size), OrderKids(t, n, k, true, false), size)
    decreases |Below(t, n)|, 0, k
  {
    hide Tree.Valid, Order, OrderKids, Trail, TrailKids, Below, Then;
    TrailIs(t, text, n, true, false, size);
    OrderIs(t, n, true, false);
    if k > 0 {
      hide Stops;
      TrailNext(t, text, n, k - 1, true, false, size);
      OrderNext(t, n, k - 1, true, false);
      TrailKidsStopPre(t, text, n, k - 1, size);
      var c := n.children[k - 1];
      TrailStopsPre(t, text, c, size);
      StopsThen(t, text, n, c, TrailKids(t, text, n, k - 1, true, false, size), Trail(t, text, c, true, false, size),
                OrderKids(t, n, k - 1, true, false), Order(t, c, true, false), size);
    }
  }

  // --------------------------------------------------------------- added entries

  /** The calls for added entries. */
  ghost function OfAdded(log: seq<Visit>): (sub: seq<Visit>)
    reads set v | v in log :: v.node
    ensures forall i :: 0 <= i < |sub| ==> sub[i] in log && sub[i].node.added
    ensures forall i :: 0 <= i < |log| && log[i].node.added ==> log[i] in sub
  {
    if log == [] then []
    else
      var n := |log| - 1;
      assert log == log[..n] + [log[n]];
      OfAdded(log[..n]) + (if log[n].node.added then [log[n]] else [])
  }

  lemma {:induction false} OfAddedConcat(a: seq<Visit>, b: seq<Visit>)
    ensures OfAdded(a + b) == OfAdded(a) + OfAdded(b)
    decreases |b|
  {
    if b == [] {
      assert a + b == a;
    } else {
      var n := |b| - 1;
      assert (a + b)[..|a + b| - 1] == a + b[..n];
      OfAddedConcat(a, b[..n]);
    }
  }

  ghost predicate Sifted(w: Walked, all: Walked)
    reads set v | v in all.log :: v.node
  {
    w.ok == all.ok && w.log == OfAdded(all.log)
  }

  lemma SiftedThen(done: Walked, more: Walked, all: Walked, next: Walked)
    requires Sifted(done, all) && Sifted(more, next)
    ensures Sifted(Then(done, more), Then(all, next))
  {
    OfAddedConcat(all.log, next.log);
  }

  lemma SiftedEmitted(n: Node, text: string, before: bool, kids: Walked, all: Walked)
    requires Sifted(kids, all)
    ensures Sifted(Emitted(n, text, before, true, kids), Emitted(n, text, before, false, all))
  {
    var one := [Visit(n, text)];
    OfAddedConcat(one, all.log);
    OfAddedConcat(all.log, one);
    assert one[..0] == [] && OfAdded(one) == if n.added then one else [];
  }

  /** A walk over the added entries is the walk over all of them, the others left out. */
  lemma {:induction false} TrailSifted(t: Tree, base: string, n: Node, before: bool, size: nat)
    requires t.Valid() && n in t.nodes
    ensures Sifted(Trail(t, base, n, before, true, size), Trail(t, base, n, before, false, size))
    decreases |Below(t, n)|, 1, 0
  {
    hide Tree.Valid, Trail, TrailKids, Below, Emitted;
    TrailIs(t, base, n, before, true, size);
    TrailIs(t, base, n, before, false, size);
    if Room(|base|, n, size) {
      hide Sifted;
      var text, k := Extend(base, n), |n.children|;
      TrailKidsSifted(t, text, n, k, before, size);
      SiftedEmitted(n, text, before, TrailKids(t, text, n, k, before, true, size), TrailKids(t, text, n, k, before, false, size));
    }
  }

  lemma {:induction false} TrailKidsSifted(t: Tree, text: string, n: Node, k: nat, before: bool, size: nat)
    requires t.Valid() && n in t.nodes && k <= |n.children|
    ensures Sifted(TrailKids(t, text, n, k, before, true, size), TrailKids(t, text, n, k, before, false, size))
    decreases |Below(t, n)|, 0, k
  {
    hide Tree.Valid, Trail, TrailKids, Below, Then;
    TrailIs(t, text, n, before, true, size);
    TrailIs(t, text, n, before, false, size);
    if k > 0 {
      hide Sifted;
      TrailNext(t, text, n, k - 1, before, true, size);
      TrailNext(t, text, n, k - 1, before, false, size);
      TrailKidsSifted(t, text, n, k - 1, before, size);
      var c := n.children[k - 1];
      TrailSifted(t, text, c, before, size);
      SiftedThen(TrailKids(t, text, n, k - 1, before, true, size), Trail(t, text, c, before, true, size),
                 TrailKids(t, text, n, k - 1, before, false, size), Trail(t, text, c, before, false, size));
    }
  }

  // ------------------------------------------------------------ what it comes to

  /** Do all the entries that the walk must pass up to `m`, and `m` itself, fit? */
  ghost predicate ComesTo(t: Tree, base: string, n: Node, m: Node, size: nat)
    requires t.Valid() && n in t.nodes
    reads t, t.nodes
  {
    var all := Order(t, n, false, false);
    forall i, j :: 0 <= i <= j < |all| && all[j] == m ==>
      all[i] in Below(t, n) && Passes(t, base, false, n, all[i], size)
  }

  /** The walk over the added entries tells one of them exactly when it comes to it. */
  lemma ToldIff(t: Tree, base: string, n: Node, m: Node, size: nat)
    requires t.Valid() && n in t.nodes && m in Below(t, n) && m.added
    ensures m in Nodes(Trail(t, base, n, false, true, size).log) <==> ComesTo(t, base, n, m, size)
  {
    hide Tree.Valid, Order, Trail, Below, Passes;
    var all, w := Order(t, n, false, false), Trail(t, base, n, false, false, size);
    TrailStopsAt(t, base, n, size);
    TrailLeads(t, base, n, false, false, size);
    TrailSifted(t, base, n, false, size);
    OrderBelow(t, n, false, false);
    assert m in all;
    var j :| 0 <= j < |all| && all[j] == m;
    assert forall i :: 0 <= i < |w.log| ==> w.log[i].node == all[i];
    var v := Trail(t, base, n, false, true, size).log;
    assert m in Nodes(v) <==> j < |w.log| by {
      if j < |w.log| {
        assert w.log[j] in v;
        var i :| 0 <= i < |v| && v[i] == w.log[j];
        assert Nodes(v)[i] == m;
      }
      if m in Nodes(v) {
        var i :| 0 <= i < |v| && Nodes(v)[i] == m;
        assert v[i] in w.log;
        var k :| 0 <= k < |w.log| && w.log[k] == v[i];
        assert all[k] == m == all[j];
      }
    }
  }

  /** All entries are come to when all fit. */
  lemma FitsAllCome(t: Tree, base: string, n: Node, m: Node, size: nat)
    requires t.Valid() && n in t.nodes && Fits(t, base, false, n, size)
    ensures ComesTo(t, base, n, m, size)
  {
    hide Tree.Valid, Order, Below;
    OrderBelow(t, n, false, false);
  }

  // ------------------------------------------------------------ what it misses

  lemma {:induction false} KidsPrefix(t: Tree, n: Node, i: nat, j: nat, before: bool, onlyAdded: bool)
    requires t.Valid() && n in t.nodes && i <= j <= |n.children|
    ensures OrderKids(t, n, i, before, onlyAdded) <= OrderKids(t, n, j, before, onlyAdded)
    decreases j
  {
    hide Tree.Valid, OrderKids, Order;
    if i < j {
      KidsPrefix(t, n, i, j - 1, before, onlyAdded);
      OrderNext(t, n, j - 1, before, onlyAdded);
    }
  }

  lemma KidAt(t: Tree, n: Node, i: nat) returns (a: nat)
    requires t.Valid() && n in t.nodes && i < |n.children|
    ensures var kids := OrderKids(t, n, i, false, false);
            |kids| <= a < |OrderKids(t, n, i + 1, false, false)| && OrderKids(t, n, i + 1, false, false)[a] == n.children[i]
  {
    hide Tree.Valid, OrderKids, Order;
    var c := n.children[i];
    OrderNext(t, n, i, false, false);
    OrderIs(t, c, false, false);
    a := |OrderKids(t, n, i, false, false)| + |Order(t, c, false, false)| - 1;
  }

  /** An entry that is refused keeps the walk from its later siblings. */
  lemma LaterMissed(t: Tree, base: string, n: Node, i: nat, j: nat, size: nat)
    requires t.Valid() && n in t.nodes && i < j < |n.children|
    requires !Room(|Extend(base, n)|, n.children[i], size)
    ensures !ComesTo(t, base, n, n.children[i], size) && !ComesTo(t, base, n, n.children[j], size)
  {
    hide Tree.Valid, OrderKids, Order, Below, Extend;
    var all, x := Order(t, n, false, false), n.children[i];
    var a := KidAt(t, n, i);
    var b := KidAt(t, n, j);
    KidsPrefix(t, n, i + 1, j, false, false);
    KidsPrefix(t, n, j, j + 1, false, false);
    KidsPrefix(t, n, j + 1, |n.children|, false, false);
    OrderIs(t, n, false, false);
    var kids := OrderKids(t, n, |n.children|, false, false);
    assert all == kids + [n] && a < b;
    assert all[a] == kids[a] == x && all[b] == kids[b] == n.children[j];
    OrderBelow(t, n, false, false);
    ChildFacts(t, n, x);
    assert !Passes(t, base, false, n, all[a], size) by { SpellSelf(t, base, n); }
  }

  lemma ChildFacts(t: Tree, n: Node, c: Node)
    requires t.Valid() && n in t.nodes && c in n.children
    ensures c in t.nodes && c != n && c.parent == n
  {
    assert t.Linked(n) && t.Linked(c);
    assert |c.path| == |n.path| + 1;
  }
}
