/**
 The types of the files of a package as a solution of equations over paths:
 what the passes over the tree (`FileTypes`) compute, said without the tree,
 which is destroyed after each package.
 */
module PackageTypes {
  import opened FileTypes
  import opened Options
  import PathOrder
  import PathText
  import opened PathTree
  import opened PathWalk
  import opened Paths

  /** What the manifest of a package says of its files, and what the system says of them. */
  datatype Manifest = Manifest(
    plugs: seq<Option<string>>,
    bindings: seq<Option<string>>,
    props: seq<Property>,
    targets: seq<Option<Content>>,
    stat: string -> Stat)

  type Kinds = map<Path, PathType>

  function KindAt(kinds: Kinds, p: Path): PathType {
    if p in kinds then kinds[p] else Unset
  }

  // ------------------------------------------------------------------- equations

  ghost predicate NamedBy(root: Path, names: seq<Option<string>>, p: Path) {
    exists i :: 0 <= i < |names| && names[i].Some? && p == root + Components(names[i].value)
  }

  ghost predicate QualifiedBy(root: Path, props: seq<Property>, p: Path) {
    exists i :: 0 <= i < |props| && props[i].name.Some? && p == root + Components(props[i].name.value)
  }

  ghost predicate TargetedBy(root: Path, targets: seq<Option<Content>>, p: Path) {
    exists i :: 0 <= i < |targets| && targets[i].Some? && targets[i].value.executable && p == root + Components(targets[i].value.src)
  }

  /** The type the manifest gives to a path, in the order of precedence of the passes. */
  ghost predicate DeclaredAt(own: Kinds, root: Path, m: Manifest, p: Path) {
    if NamedBy(root, m.bindings, p) then KindAt(own, p) == PublicLib
    else if NamedBy(root, m.plugs, p) then KindAt(own, p) == Plug
    else if p == root then KindAt(own, p) == Id
    else QualifiedBy(root, m.props, p) || KindAt(own, p) == if TargetedBy(root, m.targets, p) then Exec else Unset
  }

  /** A property names an existing file, which has its type. */
  ghost predicate RespectedAt(own: Kinds, files: set<Path>, root: Path, prop: Property) {
    && prop.name.Some? && prop.value.Some? && TypeOfKey(prop.value.value) != Unset
    && root + Components(prop.name.value) in files
    && KindAt(own, root + Components(prop.name.value)) == TypeOfKey(prop.value.value)
  }

  predicate IsDirectory(root: Path, m: Manifest, p: Path) {
    root <= p && m.stat(Join(p[|root|..], true)) == Directory
  }

  /** The default type: declared, else by directory name, else that of the directory above. */
  ghost predicate DefaultAt(own: Kinds, d: Kinds, root: Path, m: Manifest, p: Path) {
    KindAt(d, p) ==
      if KindAt(own, p) != Unset then KindAt(own, p)
      else if p == root || p == [] then Unset
      else if IsDirectory(root, m, p) && TypeOfDirname(p[|p| - 1]) != Unset then TypeOfDirname(p[|p| - 1])
      else KindAt(d, p[..|p| - 1])
  }

  predicate IsChild(p: Path, q: Path) {
    |q| == |p| + 1 && p < q
  }

  ghost function KindsBelow(files: set<Path>, kinds: Kinds, p: Path): set<PathType> {
    set q | q in files && IsChild(p, q) :: KindAt(kinds, q)
  }

  /** All the equations for the files of a package. */
  ghost predicate Solution(files: set<Path>, root: Path, m: Manifest, own: Kinds, d: Kinds, kinds: Kinds) {
    && (forall p :: p in files ==> DeclaredAt(own, root, m, p))
    && (forall i :: 0 <= i < |m.props| ==> RespectedAt(own, files, root, m.props[i]))
    && (forall p :: p in files ==> DefaultAt(own, d, root, m, p))
    && (forall p :: p in files ==> KindAt(kinds, p) == Combine(KindAt(d, p), KindsBelow(files, kinds, p)) != Unset)
  }

  // --------------------------------------------------------- what can be installed

  /** The type of a path before the properties are looked at. */
  ghost function PresetAt(root: Path, m: Manifest, p: Path): PathType {
    if NamedBy(root, m.bindings, p) then PublicLib
    else if NamedBy(root, m.plugs, p) then Plug
    else if p == root then Id
    else Unset
  }

  /** The property names a file, gives it a type, and meets no other. */
  ghost predicate PropertyAt(files: set<Path>, root: Path, m: Manifest, prop: Property) {
    && prop.name.Some? && prop.value.Some? && TypeOfKey(prop.value.value) != Unset
    && var p := root + Components(prop.name.value);
       p in files && PresetAt(root, m, p) in {Unset, TypeOfKey(prop.value.value)}
  }

  ghost predicate SameType(root: Path, a: Property, b: Property) {
    a.name.Some? && b.name.Some? && a.value.Some? && b.value.Some?
      && root + Components(a.name.value) == root + Components(b.name.value) ==>
      TypeOfKey(a.value.value) == TypeOfKey(b.value.value)
  }

  ghost predicate AllNamed(files: set<Path>, root: Path, names: seq<Option<string>>) {
    forall i :: 0 <= i < |names| ==> names[i].Some? && root + Components(names[i].value) in files
  }

  /** All that the manifest names is among the files, and its properties do not contradict it or each other. */
  ghost predicate Acceptable(files: set<Path>, root: Path, m: Manifest) {
    && AllNamed(files, root, m.plugs) && AllNamed(files, root, m.bindings)
    && (forall i :: 0 <= i < |m.targets| && m.targets[i].Some? ==> root + Components(m.targets[i].value.src) in files)
    && (forall i :: 0 <= i < |m.props| ==> PropertyAt(files, root, m, m.props[i]))
    && (forall i, j :: 0 <= i < j < |m.props| ==> SameType(root, m.props[i], m.props[j]))
  }

  /** Up to the first whose path does not fit, the content in the order of the walk is made of files and directories. */
  ghost predicate SoundAlong(order: seq<Path>, root: Path, room: int, m: Manifest) {
    forall i :: 0 <= i < |order| && root <= order[i] && FitsUpTo(order, i, room) ==>
      m.stat(Join(order[i][|root|..], true)) in {Regular, Directory}
  }

  ghost predicate FitsUpTo(order: seq<Path>, i: int, room: int)
    requires 0 <= i < |order|
  {
    forall j :: 0 <= j <= i ==> |Join(order[j], true)| < room
  }

  /** Nothing keeps a package from being installed but the operations that it takes. */
  ghost predicate Installable(files: set<Path>, root: Path, order: seq<Path>, room: int, m: Manifest) {
    Acceptable(files, root, m) && SoundAlong(order, root, room, m)
  }

  // --------------------------------------------------------------- from the tree

  /** Types by path instead of by entry. */
  ghost function ByPath(t: Tree, pack: Node, types: Types): Kinds
    requires t.Valid()
    reads t, t.nodes
  {
    map n | n in t.nodes && pack.path <= n.path :: n.path := TypeOf(types, n)
  }

  ghost function FilesOf(t: Tree, pack: Node): set<Path>
    reads t
  {
    set n | n in t.nodes && pack.path <= n.path :: n.path
  }

  lemma KindOfNode(t: Tree, pack: Node, types: Types, n: Node)
    requires t.Valid() && n in Below(t, pack)
    ensures KindAt(ByPath(t, pack, types), n.path) == TypeOf(types, n) && n.path in FilesOf(t, pack)
  {
  }

  lemma NodeOfFile(t: Tree, pack: Node, p: Path) returns (n: Node)
    requires p in FilesOf(t, pack)
    ensures n in Below(t, pack) && n.path == p
  {
    n :| n in t.nodes && pack.path <= n.path && n.path == p;
  }

  ghost function FinalsBelow(t: Tree, d: Types, n: Node): set<PathType>
    requires t.Valid() && n in t.nodes
    reads t, t.nodes
  {
    set c | c in n.children && Child(t, n, c) :: Final(t, d, c)
  }

  /** The files one level down are those of the children. */
  lemma KindsOfChildren(t: Tree, pack: Node, d: Types, types: Types, n: Node)
    requires t.Valid() && pack in t.nodes && n in Below(t, pack)
    requires forall m :: m in Below(t, pack) ==> m in t.nodes && TypeOf(types, m) == Final(t, d, m)
    ensures KindsBelow(FilesOf(t, pack), ByPath(t, pack, types), n.path) == FinalsBelow(t, d, n)
  {
    hide Tree.Valid, Final, ByPath;
    var files, kinds := FilesOf(t, pack), ByPath(t, pack, types);
    var a, b := KindsBelow(files, kinds, n.path), FinalsBelow(t, d, n);
    forall k | k in a ensures k in b {
      var q :| q in files && IsChild(n.path, q) && KindAt(kinds, q) == k;
      var m := NodeOfFile(t, pack, q);
      KindOfNode(t, pack, types, m);
      ChildByPath(t, n, m);
    }
    forall k | k in b ensures k in a {
      var c :| c in n.children && Child(t, n, c) && Final(t, d, c) == k;
      ChildBelow(t, n, c);
      PrefixOfChild(pack.path, n.path, c.path);
      KindOfNode(t, pack, types, c);
      assert IsChild(n.path, c.path) && c.path in files;
    }
  }

  lemma PrefixOfChild(a: Path, b: Path, c: Path)
    requires a <= b <= c
    ensures a <= c
  {
  }

  lemma ChildByPath(t: Tree, n: Node, m: Node)
    requires t.Valid() && n in t.nodes && m in t.nodes && IsChild(n.path, m.path)
    ensures m in n.children && Child(t, n, m)
  {
    assert t.Linked(m) && t.Linked(t.root);
    assert m != t.root;
    assert m.parent.path == m.path[..|m.path| - 1] == n.path;
    assert m in n.children;
    ChildBelow(t, n, m);
  }

  /** What the content walk of a package spells is the path inside the package. */
  lemma {:induction false} SpellInside(t: Tree, pack: Node, n: Node)
    requires t.Valid() && pack in t.nodes && pack != t.root && n in Below(t, pack)
    ensures PathText.Spell(t, "", true, pack, n) == Join(n.path[|pack.path|..], true)
    decreases |n.path|
  {
    if n != pack {
      PathText.Up(t, pack, n);
      PathText.Facts(t, n);
      PathText.Facts(t, pack);
      hide Tree.Valid;
      var k := |pack.path|;
      SpellInside(t, pack, n.parent);
      assert n.path[k..] == n.parent.path[k..] + [n.name];
      assert n.path[k..][..|n.path[k..]| - 1] == n.parent.path[k..];
      if n.parent.path[k..] != [] {
        JoinedNotEmpty(n.parent.path[k..]);
      }
    } else {
      assert n.path[|pack.path|..] == [];
    }
  }

  lemma JoinedNotEmpty(p: Path)
    requires p != []
    ensures Join(p, true) != ""
  {
  }

  lemma DeclaredByPath(ty: Typing, own: Types, m: Manifest, n: Node)
    requires ty.Valid() && n in Below(ty.t, ty.pack)
    requires ty.Declared(own, m.plugs, m.bindings, m.props, m.targets, n)
    ensures DeclaredAt(ByPath(ty.t, ty.pack, own), ty.pack.path, m, n.path)
  {
    hide Tree.Valid, ByPath, Components;
    KindOfNode(ty.t, ty.pack, own, n);
    PathText.SamePath(ty.t, ty.pack, n);
    assert ty.Named(m.bindings, |m.bindings|, n.path) <==> NamedBy(ty.pack.path, m.bindings, n.path);
    assert ty.Named(m.plugs, |m.plugs|, n.path) <==> NamedBy(ty.pack.path, m.plugs, n.path);
    assert ty.Qualified(m.props, |m.props|, n.path) <==> QualifiedBy(ty.pack.path, m.props, n.path);
    TargetedSame(ty, m.targets, n.path);
  }

  lemma TargetedSame(ty: Typing, targets: seq<Option<Content>>, p: Path)
    ensures ty.Targeted(targets, |targets|, p) <==> TargetedBy(ty.pack.path, targets, p)
  {
    hide Components;
    if ty.Targeted(targets, |targets|, p) {
      var i :| 0 <= i < |targets| && ty.Aims(targets[i], p);
    }
    if TargetedBy(ty.pack.path, targets, p) {
      var i :| 0 <= i < |targets| && targets[i].Some? && targets[i].value.executable && p == ty.pack.path + Components(targets[i].value.src);
      assert ty.Aims(targets[i], p);
    }
  }

  lemma RespectedByPath(ty: Typing, own: Types, prop: Property)
    requires ty.Valid() && ty.Respected(own, prop)
    ensures RespectedAt(ByPath(ty.t, ty.pack, own), FilesOf(ty.t, ty.pack), ty.pack.path, prop)
  {
    hide Tree.Valid, ByPath, Components;
    var p := ty.Place(prop.name.value);
    var n :| n in ty.t.nodes && n.path == p;
    assert ty.pack.path == p[..|ty.pack.path|];
    KindOfNode(ty.t, ty.pack, own, n);
  }

  lemma DefaultByPath(ty: Typing, own: Types, d: Types, m: Manifest, n: Node)
    requires ty.Valid() && ty.pack != ty.t.root && n in Below(ty.t, ty.pack)
    requires forall x :: x in Below(ty.t, ty.pack) ==> TypeOf(d, x) == Inherited(ty.t, ty.pack, own, ty.Dirs(m.stat), x)
    ensures DefaultAt(ByPath(ty.t, ty.pack, own), ByPath(ty.t, ty.pack, d), ty.pack.path, m, n.path)
  {
    hide Tree.Valid, ByPath, Inherited, Join;
    KindOfNode(ty.t, ty.pack, own, n);
    KindOfNode(ty.t, ty.pack, d, n);
    PathText.SamePath(ty.t, ty.pack, n);
    if n == ty.pack {
      InheritedPack(ty.t, ty.pack, own, ty.Dirs(m.stat));
    } else {
      StepUp(ty.t, ty.pack, n);
      InheritedStep(ty.t, ty.pack, own, ty.Dirs(m.stat), n);
      SpellInside(ty.t, ty.pack, n);
      KindOfNode(ty.t, ty.pack, d, n.parent);
      assert n.path[..|n.path| - 1] == n.parent.path && n.path[|n.path| - 1] == n.name;
      assert n in ty.Dirs(m.stat) <==> IsDirectory(ty.pack.path, m, n.path);
    }
  }

  /** What the passes compute solves the equations. */
  lemma PassesSolve(ty: Typing, own: Types, d: Types, types: Types, m: Manifest)
    requires ty.Valid() && ty.pack != ty.t.root
    requires forall n :: n in Below(ty.t, ty.pack) ==> n in ty.t.nodes && ty.Declared(own, m.plugs, m.bindings, m.props, m.targets, n)
    requires forall i :: 0 <= i < |m.props| ==> ty.Respected(own, m.props[i])
    requires forall n :: n in Below(ty.t, ty.pack) ==> TypeOf(d, n) == Inherited(ty.t, ty.pack, own, ty.Dirs(m.stat), n)
    requires forall n :: n in Below(ty.t, ty.pack) ==> TypeOf(types, n) == Final(ty.t, d, n) != Unset
    ensures Solution(FilesOf(ty.t, ty.pack), ty.pack.path, m,
                     ByPath(ty.t, ty.pack, own), ByPath(ty.t, ty.pack, d), ByPath(ty.t, ty.pack, types))
  {
    hide Tree.Valid, ByPath, Inherited, Typing.Declared, Typing.Respected, Final, DeclaredAt, RespectedAt, DefaultAt, Typing.Dirs, KindsBelow, Combine;
    var t, pack := ty.t, ty.pack;
    var files, root := FilesOf(t, pack), pack.path;
    forall p | p in files
      ensures DeclaredAt(ByPath(t, pack, own), root, m, p)
      ensures DefaultAt(ByPath(t, pack, own), ByPath(t, pack, d), root, m, p)
      ensures KindAt(ByPath(t, pack, types), p) ==
              Combine(KindAt(ByPath(t, pack, d), p), KindsBelow(files, ByPath(t, pack, types), p)) != Unset
    {
      var n := NodeOfFile(t, pack, p);
      DeclaredByPath(ty, own, m, n);
      DefaultByPath(ty, own, d, m, n);
      KindOfNode(t, pack, d, n);
      KindOfNode(t, pack, types, n);
      KindsOfChildren(t, pack, d, types, n);
      FinalIs(t, d, n);
    }
    forall i | 0 <= i < |m.props| ensures RespectedAt(ByPath(t, pack, own), files, root, m.props[i]) {
      RespectedByPath(ty, own, m.props[i]);
    }
  }

  lemma FinalIs(t: Tree, d: Types, n: Node)
    requires t.Valid() && n in t.nodes
    ensures Final(t, d, n) == Combine(TypeOf(d, n), FinalsBelow(t, d, n))
  {
    var kids := set c | c in n.children && Child(t, n, c) :: Final(t, d, c);
    assert FinalsBelow(t, d, n) == kids;
  }

  lemma FileIff(t: Tree, pack: Node, p: Path)
    requires t.Valid() && pack in t.nodes
    ensures pack.path + p in t.Paths() <==> pack.path + p in FilesOf(t, pack)
  {
    hide Tree.Valid;
    if pack.path + p in t.Paths() {
      var n :| n in t.nodes && n.path == pack.path + p;
      assert n in Below(t, pack);
    }
  }

  lemma PresetIs(ty: Typing, m: Manifest, n: Node)
    requires ty.Valid() && n in Below(ty.t, ty.pack)
    ensures ty.Preset(m.plugs, m.bindings, n) == PresetAt(ty.pack.path, m, n.path)
  {
    hide Tree.Valid, Components;
    PathText.SamePath(ty.t, ty.pack, n);
    assert ty.Named(m.bindings, |m.bindings|, n.path) <==> NamedBy(ty.pack.path, m.bindings, n.path);
    assert ty.Named(m.plugs, |m.plugs|, n.path) <==> NamedBy(ty.pack.path, m.plugs, n.path);
  }

  lemma PropertyIs(ty: Typing, m: Manifest, prop: Property)
    requires ty.Valid()
    ensures ty.PropertyFits(m.plugs, m.bindings, prop) <==> PropertyAt(FilesOf(ty.t, ty.pack), ty.pack.path, m, prop)
  {
    hide Tree.Valid, Components, Typing.Preset, PresetAt, FilesOf, Tree.Paths;
    if prop.name.Some? && prop.value.Some? && TypeOfKey(prop.value.value) != Unset {
      var p := ty.Place(prop.name.value);
      FileIff(ty.t, ty.pack, Components(prop.name.value));
      if p in FilesOf(ty.t, ty.pack) {
        var n := NodeOfFile(ty.t, ty.pack, p);
        PresetIs(ty, m, n);
        forall x | x in ty.t.nodes && x.path == p ensures x == n { PathText.SamePath(ty.t, x, n); }
      }
    }
  }

  /** The passes over the manifest succeed exactly when it is acceptable. */
  lemma AcceptableIff(ty: Typing, m: Manifest)
    requires ty.Valid()
    ensures ty.Fulfilled(m.plugs, m.bindings, m.props, m.targets) <==> Acceptable(FilesOf(ty.t, ty.pack), ty.pack.path, m)
  {
    hide Tree.Valid, Components, FilesOf, Tree.Paths, Typing.PropertyFits, PropertyAt;
    var files, root := FilesOf(ty.t, ty.pack), ty.pack.path;
    forall name: string ensures ty.Place(name) in ty.t.Paths() <==> root + Components(name) in files {
      FileIff(ty.t, ty.pack, Components(name));
    }
    assert ty.AllThere(m.plugs, |m.plugs|) <==> AllNamed(files, root, m.plugs);
    assert ty.AllThere(m.bindings, |m.bindings|) <==> AllNamed(files, root, m.bindings);
    forall i | 0 <= i < |m.props| ensures ty.PropertyFits(m.plugs, m.bindings, m.props[i]) <==> PropertyAt(files, root, m, m.props[i]) {
      PropertyIs(ty, m, m.props[i]);
    }
    forall i, j | 0 <= i < j < |m.props| ensures ty.Agree(m.props[i], m.props[j]) <==> SameType(root, m.props[i], m.props[j]) {}
  }

  // ------------------------------------------------------------- orders of paths

  ghost function PathsIn(s: seq<Node>): (r: seq<Path>)
    ensures |r| == |s| && forall i :: 0 <= i < |s| ==> r[i] == s[i].path
  {
    seq(|s|, i requires 0 <= i < |s| => s[i].path)
  }

  /** The content of an entry, in the order of a walk that tells directories first. */
  ghost function Content(t: Tree, n: Node): seq<Path>
    requires t.Valid() && n in t.nodes
    reads t, t.nodes
  {
    PathsIn(OrderKids(t, n, |n.children|, true, false))
  }

  /** Those among some files. */
  ghost function Among(order: seq<Path>, files: set<Path>): seq<Path> {
    if order == [] then []
    else Among(order[..|order| - 1], files) + (if order[|order| - 1] in files then [order[|order| - 1]] else [])
  }

  lemma {:induction false} SiftedPaths(s: seq<Node>, keep: set<Node>, files: set<Path>)
    requires forall i :: 0 <= i < |s| ==> (s[i] in keep <==> s[i].path in files)
    ensures PathsIn(PathOrder.Sift(s, keep)) == Among(PathsIn(s), files)
    decreases |s|
  {
    if s != [] {
      var init, x := s[..|s| - 1], s[|s| - 1];
      SiftedPaths(init, keep, files);
      assert PathsIn(s)[..|s| - 1] == PathsIn(init);
      assert PathsIn(PathOrder.Sift(init, keep) + [x]) == PathsIn(PathOrder.Sift(init, keep)) + [x.path];
      assert PathOrder.Sift(init, keep) + [] == PathOrder.Sift(init, keep);
    }
  }
}
