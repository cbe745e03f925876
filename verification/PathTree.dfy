/**
 The tree of path entries of src/utils/path-entry.c: nodes linked to their
 parent and to the list of their children, changed in place. The tree refines
 a prefix-closed set of component sequences, some of them marked as added.
 */
module PathTree {
  import opened Paths

  class Node {
    const name: string
    /** Was a slash written before the name? */
    const slash: bool
    var parent: Node?
    var children: seq<Node>
    var added: bool
    /** The names from the root of the tree down to this entry. */
    ghost const path: Path

    constructor (parent: Node?, name: string, slash: bool, ghost path: Path)
      ensures this.parent == parent && this.name == name && this.slash == slash && this.path == path
      ensures children == [] && !added
    {
      this.parent := parent;
      this.name := name;
      this.slash := slash;
      this.path := path;
      children := [];
      added := false;
    }
  }

  ghost predicate Distinct(s: seq<Node>) {
    forall i, j :: 0 <= i < j < |s| ==> s[i] != s[j]
  }

  lemma DistinctEmpty()
    ensures Distinct([])
  {
  }

  /** Inserting a new entry into a list of distinct ones. */
  lemma DistinctInsert(s: seq<Node>, k: nat, x: Node)
    requires k <= |s| && Distinct(s) && x !in s
    ensures Distinct(s[..k] + [x] + s[k..])
    ensures forall y :: y in s[..k] + [x] + s[k..] <==> y in s || y == x
  {
    var t := s[..k] + [x] + s[k..];
    assert forall i :: 0 <= i < |t| ==> t[i] == if i < k then s[i] else if i == k then x else s[i - 1];
    forall y ensures y in t <==> y in s || y == x {
      if y in s {
        var i :| 0 <= i < |s| && s[i] == y;
        assert t[if i < k then i else i + 1] == y;
      }
      assert t[k] == x;
    }
  }

  lemma AppendInjective(a: Path, x: string, b: Path, y: string)
    requires a + [x] == b + [y]
    ensures a == b && x == y
  {
    assert a == (a + [x])[..|a|] && b == (b + [y])[..|b|];
    assert x == (a + [x])[|a|] && y == (b + [y])[|b|];
  }

  class Tree {
    const root: Node
    ghost var nodes: set<Node>

    /** Parent links agree with child lists, and names place the entry. */
    ghost predicate Linked(n: Node)
      reads this, nodes, n
    {
      && (n == root ==> n.parent == null && n.path == [] && n.name == "")
      && (n != root ==>
            && n.parent != null && n.parent in nodes
            && n in n.parent.children
            && IsName(n.name) && n.path == n.parent.path + [n.name]
            && (|n.path| > 1 ==> n.slash))
      && (forall c :: c in n.children ==> c in nodes && c != root && c.parent == n)
      && Distinct(n.children)
    }

    ghost predicate Valid()
      reads this, nodes
    {
      && root in nodes
      && (forall n :: n in nodes ==> Linked(n))
      && (forall a, b :: a in nodes && b in nodes && a.path == b.path ==> a == b)
    }

    /** The component sequences that have an entry. */
    ghost function Paths(): set<Path>
      reads this
    {
      set n | n in nodes :: n.path
    }

    /** Those that were added. */
    ghost function Added(): set<Path>
      reads this, nodes
    {
      set n | n in nodes && n.added :: n.path
    }

    constructor ()
      ensures Valid() && fresh(nodes) && Paths() == {[]} && Added() == {}
    {
      root := new Node(null, "", false, []);
      new;
      nodes := {root};
    }

    /** The set of paths is closed under prefixes. */
    lemma {:induction false} PrefixClosed(p: Path, k: nat)
      requires Valid() && p in Paths() && k <= |p|
      ensures p[..k] in Paths()
      decreases |p|
    {
      if k < |p| {
        var n :| n in nodes && n.path == p;
        assert Linked(n);
        assert n.parent.path == p[..|p| - 1];
        PrefixClosed(n.parent.path, k);
        assert n.parent.path[..k] == p[..k];
      } else {
        assert p[..k] == p;
      }
    }

    /** The child of that name, if any. */
    method SearchChild(parent: Node, name: string) returns (entry: Node?)
      requires Valid() && parent in nodes
      ensures entry != null ==> entry in parent.children && entry in nodes && entry.path == parent.path + [name]
      ensures entry == null ==> parent.path + [name] !in Paths()
    {
      hide Distinct, Paths;
      assert Linked(parent);
      var i := 0;
      while i < |parent.children|
        invariant 0 <= i <= |parent.children|
        invariant forall j :: 0 <= j < i ==> parent.children[j].name != name
      {
        entry := parent.children[i];
        if entry.name == name {
          assert Linked(entry);
          return;
        }
        i := i + 1;
      }
      entry := null;
      ChildExists(parent, name);
    }

    /** An entry one level further down is among the children. */
    lemma ChildExists(parent: Node, name: string)
      requires Valid() && parent in nodes
      ensures parent.path + [name] in Paths() ==> exists c :: c in parent.children && c.name == name
    {
      if parent.path + [name] in Paths() {
        var n :| n in nodes && n.path == parent.path + [name];
        assert Linked(n) && Linked(parent);
        AppendInjective(n.parent.path, n.name, parent.path, name);
        assert n in parent.children;
      }
    }

    /** Is `a` before `b` as C strings compare? `b` runs on to the end of the whole path. */
    static predicate StrLess(a: string, b: string) {
      if b == "" then false
      else if a == "" then true
      else if a[0] == b[0] then StrLess(a[1..], b[1..])
      else a[0] < b[0]
    }

    /** After the insertion every entry is linked again. */
    twostate lemma Inserted(parent: Node, new entry: Node)
      requires old(Valid()) && parent in old(nodes) && entry !in old(nodes)
      requires nodes == old(nodes) + {entry}
      requires forall n :: n in old(nodes) ==> n.parent == old(n.parent) && (n != parent ==> n.children == old(n.children))
      requires forall c :: c in parent.children <==> c in old(parent.children) || c == entry
      requires Distinct(parent.children)
      requires entry.parent == parent && entry.children == [] && IsName(entry.name)
      requires entry.path == parent.path + [entry.name] && (|entry.path| > 1 ==> entry.slash)
      requires entry.path !in old(Paths())
      ensures Valid()
    {
      hide Distinct;
      DistinctEmpty();
      forall n | n in nodes
        ensures Linked(n)
      {
        if n != entry {
          assert old(Linked(n));
        }
      }
      assert forall a :: a in old(nodes) ==> a.path in old(Paths());
    }

    /** Inserts a new child; `rest` is the text from the name on. */
    method MakeChild(parent: Node, name: string, rest: string, slash: bool) returns (entry: Node)
      requires Valid() && parent in nodes && IsName(name) && parent.path + [name] !in Paths()
      requires |parent.path| > 0 ==> slash
      modifies this, parent`children
      ensures Valid() && fresh(entry) && nodes == old(nodes) + {entry}
      ensures entry.path == parent.path + [name] && entry.slash == slash && !entry.added
    {
      hide Distinct;
      entry := new Node(parent, name, slash, parent.path + [name]);
      var k := 0;
      while k < |parent.children| && StrLess(parent.children[k].name, rest)
        invariant 0 <= k <= |parent.children|
      {
        k := k + 1;
      }
      assert Linked(parent);
      DistinctInsert(parent.children, k, entry);
      DistinctEmpty();
      parent.children := parent.children[..k] + [entry] + parent.children[k..];
      nodes := nodes + {entry};
      Inserted(parent, entry);
    }
  
    /** The entry at the end of a path below `start`, if there is one. */
    method Get(start: Node, path: string) returns (entry: Node?)
      requires Valid() && start in nodes
      ensures entry == null <==> start.path + Components(path) !in Paths()
      ensures entry != null ==> entry in nodes && entry.path == start.path + Components(path)
    {
      hide Valid, Paths, Components, NameLength, SlashLength;
      var beg := SlashLength(path);
      entry := start;
      ghost var target := start.path + Components(path);
      FirstComponent(path);
      while entry != null && beg < |path|
        invariant beg <= |path| && (beg < |path| ==> path[beg] != '/')
        invariant entry != null ==> entry in nodes && entry.path + Components(path[beg..]) == target
        invariant entry == null ==> target !in Paths()
        decreases |path| - beg
      {
        NextComponent(path, beg);
        var rest := path[beg..];
        var name := rest[..NameLength(rest)];
        beg := beg + |name| + SlashLength(rest[|name|..]);
        var child := SearchChild(entry, name);
        Through(entry.path, name, Components(path[beg..]));
        if child == null && target in Paths() {
          PrefixClosed(target, |entry.path| + 1);
        }
        entry := child;
      }
      NoMore(path, beg);
      if entry != null {
        assert entry.path == target;
        InPaths(entry);
      }
    }

    lemma Through(p: Path, name: string, q: Path)
      ensures p + ([name] + q) == (p + [name]) + q
      ensures (p + ([name] + q))[..|p| + 1] == p + [name]
    {
    }

    lemma NoMore(path: string, beg: nat)
      requires beg <= |path|
      ensures beg == |path| ==> Components(path[beg..]) == []
    {
    }

    lemma InPaths(n: Node)
      requires n in nodes
      ensures n.path in Paths()
    {
    }

    /** The paths of `p` and of the directories above it. */
    static ghost function Prefixes(p: Path): set<Path> {
      set k | 0 <= k <= |p| :: p[..k]
    }

    /** Does the path start with a slash? */
    static predicate Slashed(path: string) {
      path != "" && path[0] == '/'
    }

    static lemma LeadingSlash(path: string)
      ensures SlashLength(path) > 0 <==> Slashed(path)
    {
    }

    /**
     The entry at the end of a path from the root, with all the entries on the
     way made. A new one has a slash unless it is first and the path does not
     start with one; others keep theirs.
     */
    method Make(path: string) returns (entry: Node)
      requires Valid()
      modifies this, nodes`children
      ensures Valid() && old(nodes) <= nodes && fresh(nodes - old(nodes))
      ensures entry in nodes && entry.path == Components(path)
      ensures Paths() == old(Paths()) + Prefixes(Components(path))
      ensures forall n :: n in nodes - old(nodes) ==> !n.added && (n.slash <==> |n.path| > 1 || Slashed(path))
    {
      hide Valid, Paths, Components, NameLength, SlashLength, Prefixes;
      LeadingSlash(path);
      var beg := SlashLength(path);
      var slash := beg > 0;
      entry := root;
      ghost var target := Components(path);
      FirstComponent(path);
      RootPath();
      while beg < |path|
        invariant beg <= |path| && (beg < |path| ==> path[beg] != '/')
        invariant Valid() && old(nodes) <= nodes && fresh(nodes - old(nodes))
        invariant entry in nodes && entry.path + Components(path[beg..]) == target
        invariant slash <==> |entry.path| > 0 || Slashed(path)
        invariant Paths() == old(Paths()) + Prefixes(entry.path)
        invariant forall n :: n in nodes - old(nodes) ==> !n.added && (n.slash <==> |n.path| > 1 || Slashed(path))
        decreases |path| - beg
      {
        NextComponent(path, beg);
        var rest := path[beg..];
        var name := rest[..NameLength(rest)];
        beg := beg + |name| + SlashLength(rest[|name|..]);
        Through(entry.path, name, Components(path[beg..]));
        PrefixesStep(entry.path, name);
        entry := GetChild(entry, name, rest, slash);
        slash := true;
      }
      NoMore(path, beg);
    }

    lemma RootPath()
      requires Valid()
      ensures root in nodes && root.path == [] && [] in Paths() && Prefixes([]) == {[]}
    {
      assert Linked(root);
      var p: Path := [];
      assert p[..0] == p;
    }

    static lemma PrefixesStep(p: Path, name: string)
      ensures Prefixes(p + [name]) == Prefixes(p) + {p + [name]}
    {
      var q := p + [name];
      assert q[..|q|] == q;
      assert forall k :: 0 <= k <= |p| ==> q[..k] == p[..k];
    }

    /** The child of that name, made when it is missing. */
    method GetChild(parent: Node, name: string, rest: string, slash: bool) returns (entry: Node)
      requires Valid() && parent in nodes && IsName(name) && (|parent.path| > 0 ==> slash)
      modifies this, parent`children
      ensures Valid() && old(nodes) <= nodes && fresh(nodes - old(nodes))
      ensures entry in nodes && entry.path == parent.path + [name]
      ensures Paths() == old(Paths()) + {parent.path + [name]}
      ensures forall n :: n in nodes - old(nodes) ==> !n.added && n.slash == slash && n == entry
    {
      var found := SearchChild(parent, name);
      if found != null {
        entry := found;
      } else {
        entry := MakeChild(parent, name, rest, slash);
      }
    }

    /** Adds a path: its entry and its directories exist, and it alone is marked. */
    method Add(path: string) returns (entry: Node)
      requires Valid()
      modifies this, nodes`children, nodes`added
      ensures Valid() && old(nodes) <= nodes && fresh(nodes - old(nodes))
      ensures entry in nodes && entry.path == Components(path)
      ensures Paths() == old(Paths()) + Prefixes(Components(path))
      ensures Added() == old(Added()) + {Components(path)}
      ensures forall n :: n in nodes - old(nodes) ==> (n.slash <==> |n.path| > 1 || Slashed(path))
    {
      entry := Make(path);
      ghost var before := Added();
      assert before == old(Added());
      label made:
      entry.added := true;
      Marked@made(entry);
    }

    /** Marking an entry changes no link. */
    twostate lemma Marked(entry: Node)
      requires old(Valid()) && nodes == old(nodes) && entry in nodes && entry.added
      requires forall n :: n in nodes ==> n.parent == old(n.parent) && n.children == old(n.children)
      requires forall n :: n in nodes && n != entry ==> n.added == old(n.added)
      ensures Valid() && Added() == old(Added()) + {entry.path}
    {
      hide Distinct;
      forall n | n in nodes ensures Linked(n) { assert old(Linked(n)); }
    }
  }
}
