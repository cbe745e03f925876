/**
 Destruction and traversal of the path tree (src/utils/path-entry.c): what lies
 below an entry, the recursive walk over it in pre-order or post-order, and
 the removal of exactly one subtree.
 */
module PathWalk {
  import opened PathTree
  import opened Paths
  import opened Sets

  /** The entry and everything under it. */
  ghost function Below(t: Tree, n: Node): set<Node>
    reads t
  {
    set m | m in t.nodes && n.path <= m.path
  }

  lemma SelfBelow(t: Tree, n: Node)
    requires n in t.nodes
    ensures n in Below(t, n)
  {
  }

  /** What is below a child is strictly below its parent. */
  lemma ChildBelow(t: Tree, n: Node, c: Node)
    requires t.Valid() && n in t.nodes && c in n.children
    ensures c in t.nodes && c.path == n.path + [c.name] && c.parent == n
    ensures Below(t, c) <= Below(t, n) - {n}
    ensures |Below(t, c)| < |Below(t, n)|
  {
    assert t.Linked(n) && t.Linked(c);
    forall m | m in Below(t, c)
      ensures m in Below(t, n) - {n}
    {
      assert n.path == c.path[..|n.path|];
    }
    SelfBelow(t, n);
    Smaller(Below(t, c), Below(t, n), n);
  }

  lemma Smaller(a: set<Node>, b: set<Node>, x: Node)
    requires a <= b - {x} && x in b
    ensures |a| < |b|
  {
    SubsetCard(a, b - {x});
  }

  /** Two children share nothing below. */
  lemma ChildrenApart(t: Tree, n: Node, c: Node, d: Node, m: Node)
    requires t.Valid() && n in t.nodes && c in n.children && d in n.children
    requires m in Below(t, c) && m in Below(t, d)
    ensures c == d
  {
    ChildBelow(t, n, c);
    ChildBelow(t, n, d);
    assert c.path == m.path[..|c.path|] && d.path == m.path[..|d.path|];
  }

  /** What is strictly below an entry is below one of its children. */
  lemma BelowChild(t: Tree, n: Node, m: Node) returns (c: Node)
    requires t.Valid() && n in t.nodes && m in Below(t, n) && m != n
    ensures c in n.children && m in Below(t, c)
  {
    var k := |n.path| + 1;
    assert m.path != n.path;
    assert m.path[..|n.path|] == n.path;
    t.InPaths(m);
    t.PrefixClosed(m.path, k);
    var p := m.path[..k];
    c :| c in t.nodes && c.path == p;
    assert t.Linked(c);
    assert c.parent.path == p[..|p| - 1] == n.path;
  }

  // ------------------------------------------------------------------ traversal

  /** No entry after one of its descendants, or before one, as the order asks. */
  ghost predicate Ordered(before: bool, v: seq<Node>) {
    forall i, j :: 0 <= i < j < |v| ==>
      if before then !(v[j].path < v[i].path) else !(v[i].path < v[j].path)
  }

  ghost predicate Selected(onlyAdded: bool, m: Node)
    reads m
  {
    onlyAdded ==> m.added
  }

  /** Every selected entry below `n` exactly once, in order. */
  ghost predicate Traversal(t: Tree, n: Node, before: bool, onlyAdded: bool, v: seq<Node>)
    reads t, t.nodes
  {
    && Distinct(v) && Ordered(before, v)
    && (forall m :: m in v ==> m in t.nodes && m in Below(t, n) && Selected(onlyAdded, m))
    && (forall m :: m in t.nodes && m in Below(t, n) && Selected(onlyAdded, m) ==> m in v)
  }

  /** The same for the first `k` children of `n` only. */
  ghost predicate Partial(t: Tree, n: Node, k: int, before: bool, onlyAdded: bool, v: seq<Node>)
    reads t, t.nodes, n
    requires 0 <= k <= |n.children|
  {
    && Distinct(v) && Ordered(before, v)
    && (forall m :: m in v ==> m in t.nodes && BelowFirst(t, n, k, m) && Selected(onlyAdded, m))
    && (forall m :: m in t.nodes && BelowFirst(t, n, k, m) && Selected(onlyAdded, m) ==> m in v)
  }

  ghost predicate BelowFirst(t: Tree, n: Node, k: int, m: Node)
    reads t, n
    requires 0 <= k <= |n.children|
  {
    exists i :: 0 <= i < k && m in Below(t, n.children[i])
  }

  lemma PartialNone(t: Tree, n: Node, before: bool, onlyAdded: bool)
    ensures Partial(t, n, 0, before, onlyAdded, [])
  {
  }

  lemma Kids(t: Tree, n: Node)
    requires t.Valid() && n in t.nodes
    ensures Distinct(n.children)
  {
    assert t.Linked(n);
  }

  lemma FirstOf(t: Tree, n: Node, k: nat, m: Node) returns (c: nat)
    requires k <= |n.children| && BelowFirst(t, n, k, m)
    ensures c < k && m in Below(t, n.children[c])
  {
    c :| 0 <= c < k && m in Below(t, n.children[c]);
  }

  lemma BelowFirstMore(t: Tree, n: Node, k: nat, m: Node)
    requires k < |n.children|
    ensures BelowFirst(t, n, k + 1, m) <==> BelowFirst(t, n, k, m) || m in Below(t, n.children[k])
  {
    if BelowFirst(t, n, k, m) {
      var i := FirstOf(t, n, k, m);
      assert 0 <= i < k + 1 && m in Below(t, n.children[i]);
    }
  }

  ghost predicate Unrelated(x: Node, y: Node) {
    x != y && !(x.path < y.path) && !(y.path < x.path)
  }

  lemma ConcatOrdered(before: bool, v: seq<Node>, w: seq<Node>)
    requires Distinct(v) && Ordered(before, v) && Distinct(w) && Ordered(before, w)
    requires forall x, y :: x in v && y in w ==> Unrelated(x, y)
    ensures Distinct(v + w) && Ordered(before, v + w)
  {
    forall i, j | 0 <= i < |v| <= j < |v + w|
      ensures Unrelated((v + w)[i], (v + w)[j])
    {
      assert (v + w)[i] in v && (v + w)[j] in w;
    }
  }

  /** One more child walked. */
  lemma PartialMore(t: Tree, n: Node, k: nat, before: bool, onlyAdded: bool, v: seq<Node>, sub: seq<Node>)
    requires t.Valid() && n in t.nodes && k < |n.children|
    requires Partial(t, n, k, before, onlyAdded, v)
    requires Traversal(t, n.children[k], before, onlyAdded, sub)
    ensures Partial(t, n, k + 1, before, onlyAdded, v + sub)
  {
    hide Ordered, Below, Tree.Valid, BelowFirst;
    Kids(t, n);
    forall x, y | x in v && y in sub
      ensures Unrelated(x, y)
    {
      var c := FirstOf(t, n, k, x);
      Siblings(t, n, n.children[c], n.children[k], x, y);
    }
    ConcatOrdered(before, v, sub);
    forall m | m in t.nodes
      ensures BelowFirst(t, n, k + 1, m) <==> BelowFirst(t, n, k, m) || m in Below(t, n.children[k])
    {
      BelowFirstMore(t, n, k, m);
    }
    assert forall m :: m in v + sub <==> m in v || m in sub;
  }

  /** Entries below different children are unrelated. */
  lemma Siblings(t: Tree, n: Node, c: Node, d: Node, x: Node, y: Node)
    requires t.Valid() && n in t.nodes && c in n.children && d in n.children && c != d
    requires x in Below(t, c) && y in Below(t, d)
    ensures x != y && !(x.path < y.path) && !(y.path < x.path)
  {
    if y in Below(t, c) { ChildrenApart(t, n, c, d, y); }
    if x in Below(t, d) { ChildrenApart(t, n, c, d, x); }
  }

  /** The entry placed before or after what lies below it. */
  lemma PlacedOrdered(before: bool, n: Node, v: seq<Node>)
    requires Distinct(v) && Ordered(before, v) && n !in v
    requires forall m :: m in v ==> n.path <= m.path
    ensures var w := if before then [n] + v else v + [n];
            Distinct(w) && Ordered(before, w) && forall m :: m in w <==> m in v || m == n
  {
    var w := if before then [n] + v else v + [n];
    forall i, j | 0 <= i < j < |w|
      ensures w[i] != w[j]
      ensures if before then !(w[j].path < w[i].path) else !(w[i].path < w[j].path)
    {
      if before {
        if i == 0 { assert w[j] in v; }
      } else {
        if j == |v| { assert w[i] in v; }
      }
    }
  }

  lemma BelowAll(t: Tree, n: Node, m: Node)
    requires t.Valid() && n in t.nodes
    ensures BelowFirst(t, n, |n.children|, m) <==> m in Below(t, n) && m != n
  {
    if m in Below(t, n) && m != n {
      var c := BelowChild(t, n, m);
      var i :| 0 <= i < |n.children| && n.children[i] == c;
      assert m in Below(t, n.children[i]);
    } else if BelowFirst(t, n, |n.children|, m) {
      var i :| 0 <= i < |n.children| && m in Below(t, n.children[i]);
      ChildBelow(t, n, n.children[i]);
    }
  }

  lemma BelowPath(t: Tree, n: Node, m: Node)
    ensures m in Below(t, n) ==> n.path <= m.path
  {
  }

  /** All the children walked, and the entry itself placed before or after them. */
  lemma PartialAll(t: Tree, n: Node, before: bool, onlyAdded: bool, v: seq<Node>)
    requires t.Valid() && n in t.nodes
    requires Partial(t, n, |n.children|, before, onlyAdded, v)
    ensures Traversal(t, n, before, onlyAdded,
                      if !Selected(onlyAdded, n) then v else if before then [n] + v else v + [n])
  {
    hide Ordered, Distinct, BelowFirst, Below, Tree.Valid;
    SelfBelow(t, n);
    forall m | m in t.nodes
      ensures BelowFirst(t, n, |n.children|, m) <==> m in Below(t, n) && m != n
      ensures m in Below(t, n) ==> n.path <= m.path
    {
      BelowAll(t, n, m);
      BelowPath(t, n, m);
    }
    PlacedOrdered(before, n, v);
  }

  /** The entry, if it is selected, before or after what was walked below it. */
  ghost function Around(n: Node, before: bool, onlyAdded: bool, kids: seq<Node>): seq<Node>
    reads n
  {
    if !Selected(onlyAdded, n) then kids else if before then [n] + kids else kids + [n]
  }

  /** The selected entries at and below `n`, in the order of the walk. */
  ghost function Order(t: Tree, n: Node, before: bool, onlyAdded: bool): seq<Node>
    requires t.Valid() && n in t.nodes
    reads t, t.nodes
    decreases |Below(t, n)|, 1, 0
  {
    Around(n, before, onlyAdded, OrderKids(t, n, |n.children|, before, onlyAdded))
  }

  /** Those below the first `k` children of `n`. */
  ghost function OrderKids(t: Tree, n: Node, k: nat, before: bool, onlyAdded: bool): seq<Node>
    requires t.Valid() && n in t.nodes && k <= |n.children|
    reads t, t.nodes
    decreases |Below(t, n)|, 0, k
  {
    if k == 0 then []
    else
      ChildBelow(t, n, n.children[k - 1]);
      OrderKids(t, n, k - 1, before, onlyAdded) + Order(t, n.children[k - 1], before, onlyAdded)
  }

  lemma OrderIs(t: Tree, n: Node, before: bool, onlyAdded: bool)
    requires t.Valid() && n in t.nodes
    ensures Order(t, n, before, onlyAdded) == Around(n, before, onlyAdded, OrderKids(t, n, |n.children|, before, onlyAdded))
    ensures OrderKids(t, n, 0, before, onlyAdded) == []
  {
  }

  lemma OrderNext(t: Tree, n: Node, k: nat, before: bool, onlyAdded: bool)
    requires t.Valid() && n in t.nodes && k < |n.children|
    ensures n.children[k] in t.nodes && |Below(t, n.children[k])| < |Below(t, n)|
    ensures OrderKids(t, n, k + 1, before, onlyAdded) ==
            OrderKids(t, n, k, before, onlyAdded) + Order(t, n.children[k], before, onlyAdded)
  {
    ChildBelow(t, n, n.children[k]);
  }

  /** The walk is complete and without repetition, whatever the order of the siblings. */
  lemma {:induction false} OrderTraverses(t: Tree, n: Node, before: bool, onlyAdded: bool)
    requires t.Valid() && n in t.nodes
    ensures Traversal(t, n, before, onlyAdded, Order(t, n, before, onlyAdded))
    decreases |Below(t, n)|, 1, 0
  {
    hide Traversal, Partial, Tree.Valid, Order, OrderKids, Below;
    OrderKidsPartial(t, n, |n.children|, before, onlyAdded);
    OrderIs(t, n, before, onlyAdded);
    PartialAll(t, n, before, onlyAdded, OrderKids(t, n, |n.children|, before, onlyAdded));
  }

  lemma {:induction false} OrderKidsPartial(t: Tree, n: Node, k: nat, before: bool, onlyAdded: bool)
    requires t.Valid() && n in t.nodes && k <= |n.children|
    ensures Partial(t, n, k, before, onlyAdded, OrderKids(t, n, k, before, onlyAdded))
    decreases |Below(t, n)|, 0, k
  {
    hide Traversal, Partial, Tree.Valid, Order, OrderKids, Below;
    if k == 0 {
      OrderIs(t, n, before, onlyAdded);
      PartialNone(t, n, before, onlyAdded);
    } else {
      OrderNext(t, n, k - 1, before, onlyAdded);
      OrderKidsPartial(t, n, k - 1, before, onlyAdded);
      OrderTraverses(t, n.children[k - 1], before, onlyAdded);
      PartialMore(t, n, k - 1, before, onlyAdded, OrderKids(t, n, k - 1, before, onlyAdded), Order(t, n.children[k - 1], before, onlyAdded));
    }
  }

  /** The recursive walk without a path buffer, the entry itself left out. */
  method ForEachContent(t: Tree, n: Node, before: bool, onlyAdded: bool) returns (visited: seq<Node>)
    requires t.Valid() && n in t.nodes
    ensures visited == OrderKids(t, n, |n.children|, before, onlyAdded)
    ensures Partial(t, n, |n.children|, before, onlyAdded, visited)
    decreases |Below(t, n)|, 0
  {
    hide Traversal, Partial, Below, Tree.Valid, Order, OrderKids;
    visited := [];
    OrderIs(t, n, before, onlyAdded);
    for k := 0 to |n.children|
      invariant visited == OrderKids(t, n, k, before, onlyAdded)
    {
      OrderNext(t, n, k, before, onlyAdded);
      var sub := ForEach(t, n.children[k], before, onlyAdded);
      visited := visited + sub;
    }
    OrderKidsPartial(t, n, |n.children|, before, onlyAdded);
  }

  /** The recursive walk without a path buffer. */
  method ForEach(t: Tree, n: Node, before: bool, onlyAdded: bool) returns (visited: seq<Node>)
    requires t.Valid() && n in t.nodes
    ensures visited == Order(t, n, before, onlyAdded)
    ensures Traversal(t, n, before, onlyAdded, visited)
    decreases |Below(t, n)|, 1
  {
    hide Traversal, Partial, Tree.Valid, Order, OrderKids;
    visited := ForEachContent(t, n, before, onlyAdded);
    OrderIs(t, n, before, onlyAdded);
    OrderTraverses(t, n, before, onlyAdded);
    if !onlyAdded || n.added {
      visited := if before then [n] + visited else visited + [n];
    }
  }

  // ---------------------------------------------------------------- destruction

  lemma DistinctRemove(s: seq<Node>, k: nat)
    requires k < |s| && Distinct(s)
    ensures Distinct(s[..k] + s[k + 1..])
    ensures forall y :: y in s[..k] + s[k + 1..] <==> y in s && y != s[k]
  {
    var t := s[..k] + s[k + 1..];
    assert forall i :: 0 <= i < |t| ==> t[i] == if i < k then s[i] else s[i + 1];
    forall y | y in s && y != s[k] ensures y in t {
      var i :| 0 <= i < |s| && s[i] == y;
      assert t[if i < k then i else i - 1] == y;
    }
  }

  /** After the unlinking every remaining entry is linked as before. */
  twostate lemma Unlinked(t: Tree, new entry: Node)
    requires old(t.Valid()) && entry in old(t.nodes) && entry != t.root
    requires entry in old(t.nodes) && t.nodes == old(t.nodes) - old(Below(t, entry))
    requires forall n :: n in old(t.nodes) ==> n.parent == old(n.parent)
    requires forall n :: n in old(t.nodes) && n != entry.parent ==> n.children == old(n.children)
    requires entry.parent != null && Distinct(entry.parent.children)
    requires forall c :: c in entry.parent.children <==> c in old(entry.parent.children) && c != entry
    ensures t.Valid()
  {
    hide Distinct;
    assert old(t.Linked(t.root)) && old(t.Linked(entry));
    forall n | n in t.nodes
      ensures t.Linked(n)
    {
      assert old(t.Linked(n));
      if n != t.root {
        assert n.parent.path <= n.path;
      }
      forall c | c in n.children
        ensures c in t.nodes
      {
        assert c in old(n.children) && c != entry;
        assert old(t.Linked(c));
        AppendPrefix(entry.path, n.path, c.name);
      }
    }
  }

  /** A path that extends a longer one by a name extends it or ends with that name. */
  lemma AppendPrefix(p: Path, q: Path, name: string)
    ensures p <= q + [name] ==> p <= q || p == q + [name]
  {
    if p <= q + [name] && |p| <= |q| {
      assert q == (q + [name])[..|q|];
      assert p == (q + [name])[..|p|] == q[..|p|];
    }
  }

  lemma AllWalked(t: Tree, n: Node, v: seq<Node>)
    requires Traversal(t, n, false, false, v)
    ensures (set m | m in v) == Below(t, n)
  {
  }

  /** Position of an entry among its siblings. */
  method IndexOf(parent: Node, entry: Node) returns (k: nat)
    requires entry in parent.children
    ensures k < |parent.children| && parent.children[k] == entry
  {
    k := 0;
    while parent.children[k] != entry
      invariant 0 <= k < |parent.children|
      invariant entry in parent.children[k..]
      decreases |parent.children| - k
    {
      k := k + 1;
    }
  }

  twostate lemma PathsRemoved(t: Tree, new entry: Node)
    requires entry in old(t.nodes) && t.nodes == old(t.nodes) - old(Below(t, entry))
    requires forall n :: n in old(t.nodes) ==> n.added == old(n.added)
    ensures t.Paths() == set p | p in old(t.Paths()) && !(entry.path <= p)
    ensures t.Added() == set p | p in old(t.Added()) && !(entry.path <= p)
  {
    hide Tree.Valid;
  }

  lemma ParentOf(t: Tree, entry: Node)
    requires t.Valid() && entry in t.nodes && entry != t.root
    ensures entry.parent != null && entry.parent in t.nodes && entry in entry.parent.children
    ensures entry.path == entry.parent.path + [entry.name]
    ensures Distinct(entry.parent.children)
  {
    assert t.Linked(entry);
    Kids(t, entry.parent);
  }

  lemma RootBelow(t: Tree)
    requires t.Valid()
    ensures Below(t, t.root) == t.nodes
  {
    assert t.Linked(t.root);
  }

  /** One of the entries is taken out, the others keep their order. */
  ghost predicate WithoutOne(before: seq<Node>, after: seq<Node>, one: Node) {
    exists k :: 0 <= k < |before| && before[k] == one && after == before[..k] + before[k + 1..]
  }

  /**
   Destroys one entry and what is below it. The recursion that frees the
   entries is the post-order walk; nothing else of the tree changes. Destroying
   the root leaves no tree.
   */
  method Destroy(t: Tree, entry: Node)
    requires t.Valid() && entry in t.nodes
    modifies t, t.nodes`children
    ensures t.nodes == old(t.nodes) - old(Below(t, entry))
    ensures t.Paths() == set p | p in old(t.Paths()) && !(entry.path <= p)
    ensures t.Added() == set p | p in old(t.Added()) && !(entry.path <= p)
    ensures entry != t.root ==> t.Valid()
    ensures entry == t.root ==> t.nodes == {}
    ensures forall n :: n in old(t.nodes) && n != entry.parent ==> n.children == old(n.children)
    ensures entry != t.root ==> entry.parent != null && WithoutOne(old(entry.parent.children), entry.parent.children, entry)
  {
    hide Distinct, Ordered, Tree.Valid, Traversal, Below, Tree.Paths, Tree.Added, Order;
    var freed := ForEach(t, entry, false, false);
    AllWalked(t, entry, freed);
    if entry == t.root {
      RootBelow(t);
      t.nodes := t.nodes - (set m | m in freed);
      PathsRemoved(t, entry);
      return;
    }
    ParentOf(t, entry);
    var parent := entry.parent;
    var k := IndexOf(parent, entry);
    DistinctRemove(parent.children, k);
    parent.children := parent.children[..k] + parent.children[k + 1..];
    t.nodes := t.nodes - (set m | m in freed);
    Unlinked(t, entry);
    PathsRemoved(t, entry);
  }
}
