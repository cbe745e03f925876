/**
 The order of a walk after entries were destroyed: that of the tree as it was,
 without them. What the tree was is kept as values.
 */
module PathOrder {
  import opened PathTree
  import opened PathWalk
  import opened Paths

  /** What is left of a list of entries. */
  ghost function Sift(s: seq<Node>, keep: set<Node>): seq<Node> {
    if s == [] then [] else Sift(s[..|s| - 1], keep) + (if s[|s| - 1] in keep then [s[|s| - 1]] else [])
  }

  lemma {:induction false} SiftConcat(a: seq<Node>, b: seq<Node>, keep: set<Node>)
    ensures Sift(a + b, keep) == Sift(a, keep) + Sift(b, keep)
    decreases |b|
  {
    if b == [] {
      assert a + b == a;
    } else {
      assert (a + b)[..|a + b| - 1] == a + b[..|b| - 1];
      SiftConcat(a, b[..|b| - 1], keep);
    }
  }

  lemma {:induction false} SiftAll(s: seq<Node>, keep: set<Node>)
    ensures (forall i :: 0 <= i < |s| ==> s[i] in keep) ==> Sift(s, keep) == s
    ensures (forall i :: 0 <= i < |s| ==> s[i] !in keep) ==> Sift(s, keep) == []
    decreases |s|
  {
    if s != [] { SiftAll(s[..|s| - 1], keep); }
  }

  lemma {:induction false} SiftTwice(s: seq<Node>, a: set<Node>, b: set<Node>)
    requires b <= a
    ensures Sift(Sift(s, a), b) == Sift(s, b)
    decreases |s|
  {
    if s != [] {
      var init, x := s[..|s| - 1], s[|s| - 1];
      SiftTwice(init, a, b);
      SiftConcat(Sift(init, a), if x in a then [x] else [], b);
      assert [x][..0] == [] && Sift([x], b) == if x in b then [x] else [];
    }
  }

  /** The lists of children of a tree and the orders they give. */
  datatype Shape = Shape(kids: map<Node, seq<Node>>, orders: map<Node, seq<Node>>, parts: map<Node, seq<seq<Node>>>)

  /** A shape taken from a tree. */
  ghost function ShapeOf(t: Tree): Shape
    requires t.Valid()
    reads t, t.nodes
  {
    Shape(map n | n in t.nodes :: n.children,
          map n | n in t.nodes :: Order(t, n, true, false),
          map n | n in t.nodes :: Parts(t, n, |n.children|))
  }

  ghost function Parts(t: Tree, n: Node, k: nat): (r: seq<seq<Node>>)
    requires t.Valid() && n in t.nodes && k <= |n.children|
    reads t, t.nodes
    ensures |r| == k + 1 && forall j :: 0 <= j <= k ==> r[j] == OrderKids(t, n, j, true, false)
    decreases k
  {
    (if k == 0 then [] else Parts(t, n, k - 1)) + [OrderKids(t, n, k, true, false)]
  }

  /** What holds of it, said without the tree. */
  ghost predicate Coherent(s: Shape, nodes: set<Node>) {
    && s.kids.Keys == s.orders.Keys == s.parts.Keys == nodes
    && (forall n :: n in nodes ==> CoherentAt(s, nodes, n))
  }

  ghost predicate CoherentAt(s: Shape, nodes: set<Node>, n: Node)
    requires s.kids.Keys == s.orders.Keys == s.parts.Keys == nodes && n in nodes
  {
    && |s.parts[n]| == |s.kids[n]| + 1 && s.parts[n][0] == []
    && s.orders[n] == [n] + s.parts[n][|s.kids[n]|]
    && (forall k :: 0 <= k < |s.kids[n]| ==>
          s.kids[n][k] in nodes && s.parts[n][k + 1] == s.parts[n][k] + s.orders[s.kids[n][k]])
    && (forall i :: 0 <= i < |s.orders[n]| ==> s.orders[n][i] in nodes && n.path <= s.orders[n][i].path)
  }

  lemma ShapeCoherent(t: Tree)
    requires t.Valid()
    ensures Coherent(ShapeOf(t), t.nodes)
  {
    hide Tree.Valid, Order, OrderKids, Below;
    var s := ShapeOf(t);
    forall n | n in t.nodes ensures CoherentAt(s, t.nodes, n) {
      OrderIs(t, n, true, false);
      forall k | 0 <= k < |n.children|
        ensures n.children[k] in t.nodes
        ensures OrderKids(t, n, k + 1, true, false) == OrderKids(t, n, k, true, false) + Order(t, n.children[k], true, false)
      {
        OrderNext(t, n, k, true, false);
      }
      OrderInside(t, n);
    }
  }

  lemma OrderInside(t: Tree, n: Node)
    requires t.Valid() && n in t.nodes
    ensures var all := Order(t, n, true, false); forall i :: 0 <= i < |all| ==> all[i] in t.nodes && n.path <= all[i].path
  {
    hide Tree.Valid, Order, Ordered, Distinct;
    OrderTraverses(t, n, true, false);
    var all := Order(t, n, true, false);
    assert forall i :: 0 <= i < |all| ==> all[i] in all;
  }

  /** The tree is what is left of that shape. */
  ghost predicate Left(t: Tree, s: Shape, nodes: set<Node>)
    reads t, t.nodes
  {
    && t.nodes <= nodes && Coherent(s, nodes)
    && (forall n :: n in t.nodes ==> n.children == Sift(s.kids[n], t.nodes))
    && Closed(t.nodes, nodes)
  }

  /** Where an entry is left, those above it are. */
  ghost predicate Closed(some: set<Node>, nodes: set<Node>) {
    forall m, n :: m in nodes && n in some && m.path <= n.path ==> m in some
  }

  lemma ClosedLess(some: set<Node>, less: set<Node>, nodes: set<Node>, entry: Node)
    requires Closed(some, nodes) && forall n :: n in less <==> n in some && !(entry.path <= n.path)
    ensures Closed(less, nodes)
  {
    forall m, n | m in nodes && n in less && m.path <= n.path ensures m in less {
      assert m in some;
    }
  }

  lemma ClosedAtFirst(nodes: set<Node>)
    ensures Closed(nodes, nodes)
  {
  }

  lemma LeftAtFirst(t: Tree)
    requires t.Valid()
    ensures Left(t, ShapeOf(t), t.nodes)
  {
    ShapeCoherent(t);
    hide Tree.Valid, Order, OrderKids, Coherent, Closed;
    ClosedAtFirst(t.nodes);
    var s := ShapeOf(t);
    forall n | n in t.nodes ensures n.children == Sift(s.kids[n], t.nodes) {
      KidsInside(t, n);
      SiftAll(n.children, t.nodes);
    }
  }

  lemma KidsInside(t: Tree, n: Node)
    requires t.Valid() && n in t.nodes
    ensures forall i :: 0 <= i < |n.children| ==> n.children[i] in t.nodes
  {
    assert t.Linked(n);
    assert forall i :: 0 <= i < |n.children| ==> n.children[i] in n.children;
  }

  /** Its orders are those of the shape, sifted. */
  lemma {:induction false} OrderLeft(t: Tree, s: Shape, nodes: set<Node>, n: Node)
    requires t.Valid() && Left(t, s, nodes) && n in t.nodes
    ensures Order(t, n, true, false) == Sift(s.orders[n], t.nodes)
    ensures OrderKids(t, n, |n.children|, true, false) == Sift(s.parts[n][|s.kids[n]|], t.nodes)
    decreases |Below(t, n)|, 1, 0
  {
    hide Tree.Valid, Order, OrderKids, Below;
    OrderIs(t, n, true, false);
    assert CoherentAt(s, nodes, n);
    var k := |s.kids[n]|;
    KidsLeft(t, s, nodes, n, k);
    assert s.kids[n][..k] == s.kids[n];
    SiftConcat([n], s.parts[n][k], t.nodes);
    SiftAll([n], t.nodes);
  }

  lemma {:induction false} KidsLeft(t: Tree, s: Shape, nodes: set<Node>, n: Node, k: nat)
    requires t.Valid() && Left(t, s, nodes) && n in t.nodes && k <= |s.kids[n]|
    ensures CoherentAt(s, nodes, n)
    ensures var j := |Sift(s.kids[n][..k], t.nodes)|;
            j <= |n.children| && OrderKids(t, n, j, true, false) == Sift(s.parts[n][k], t.nodes)
    decreases |Below(t, n)|, 0, k
  {
    hide Tree.Valid, Order, OrderKids, Below, Sift;
    assert CoherentAt(s, nodes, n);
    OrderIs(t, n, true, false);
    SiftAll([], t.nodes);
    var all := s.kids[n];
    assert all == all[..k] + all[k..];
    SiftConcat(all[..k], all[k..], t.nodes);
    if k == 0 {
      assert all[..0] == [];
    } else {
      var c, init := all[k - 1], all[..k - 1];
      KidsLeft(t, s, nodes, n, k - 1);
      assert all[..k] == init + [c];
      SiftConcat(init, [c], t.nodes);
      SiftAll([c], t.nodes);
      SiftConcat(s.parts[n][k - 1], s.orders[c], t.nodes);
      var j := |Sift(init, t.nodes)|;
      if c in t.nodes {
        assert Sift(all[..k], t.nodes) == Sift(init, t.nodes) + [c];
        assert n.children[j] == c;
        OrderNext(t, n, j, true, false);
        OrderLeft(t, s, nodes, c);
      } else {
        assert CoherentAt(s, nodes, c);
        SiftAll(s.orders[c], t.nodes);
        assert Sift(s.parts[n][k - 1], t.nodes) + [] == Sift(s.parts[n][k - 1], t.nodes);
      }
    }
  }

  /** The lists of children, as they stand. */
  ghost function ListsOf(t: Tree): map<Node, seq<Node>>
    reads t, t.nodes
  {
    map n | n in t.nodes :: n.children
  }

  /** Lists that are what is left of a shape. */
  ghost predicate LeftLists(lists: map<Node, seq<Node>>, s: Shape, nodes: set<Node>) {
    && lists.Keys <= nodes && Coherent(s, nodes) && Closed(lists.Keys, nodes)
    && forall n :: n in lists ==> lists[n] == Sift(s.kids[n], lists.Keys)
  }

  lemma ListsLeft(t: Tree, s: Shape, nodes: set<Node>)
    ensures Left(t, s, nodes) <==> LeftLists(ListsOf(t), s, nodes)
  {
    hide Sift, Coherent, Closed;
    assert ListsOf(t).Keys == t.nodes;
    assert Coherent(s, nodes) ==> s.kids.Keys == nodes by { if Coherent(s, nodes) { SameKeys(s, nodes); } }
  }

  lemma SameKeys(s: Shape, nodes: set<Node>)
    requires Coherent(s, nodes)
    ensures s.kids.Keys == nodes
  {
  }

  /** Destroying an entry leaves less of the shape. */
  lemma LeftLess(t: Tree, s: Shape, nodes: set<Node>, entry: Node, before: map<Node, seq<Node>>)
    requires t.Valid() && LeftLists(before, s, nodes) && entry in before
    requires forall n :: n in t.nodes <==> n in before && !(entry.path <= n.path)
    requires forall n :: n in before && n != entry.parent ==> n.children == before[n]
    requires entry.parent != null && entry.parent in before && WithoutOne(before[entry.parent], entry.parent.children, entry)
    ensures Left(t, s, nodes)
  {
    SameKeys(s, nodes);
    hide Coherent, WithoutOne, Tree.Valid, Sift, Closed;
    ClosedLess(before.Keys, t.nodes, nodes, entry);
    forall n | n in t.nodes ensures n.children == Sift(s.kids[n], t.nodes) {
      SiftTwice(s.kids[n], before.Keys, t.nodes);
      KidsInside(t, n);
      if n == entry.parent {
        SiftWithout(before[n], n.children, entry, t.nodes);
      } else {
        SiftAll(n.children, t.nodes);
      }
    }
  }

  lemma SiftWithout(before: seq<Node>, after: seq<Node>, one: Node, keep: set<Node>)
    requires WithoutOne(before, after, one) && one !in keep && forall i :: 0 <= i < |after| ==> after[i] in keep
    ensures Sift(before, keep) == after
  {
    hide Sift;
    var k :| 0 <= k < |before| && before[k] == one && after == before[..k] + before[k + 1..];
    var a, b := before[..k], before[k + 1..];
    assert before == a + [one] + b;
    SiftConcat(a + [one], b, keep);
    SiftConcat(a, [one], keep);
    KeptParts(a, b, keep);
    SiftAll([one], keep);
    assert a + [] == a;
  }

  lemma KeptParts(a: seq<Node>, b: seq<Node>, keep: set<Node>)
    requires forall i :: 0 <= i < |a + b| ==> (a + b)[i] in keep
    ensures Sift(a, keep) == a && Sift(b, keep) == b
  {
    forall i | 0 <= i < |a| ensures a[i] in keep { assert (a + b)[i] == a[i]; }
    forall i | 0 <= i < |b| ensures b[i] in keep { assert (a + b)[|a| + i] == b[i]; }
    SiftAll(a, keep);
    SiftAll(b, keep);
  }
}
