/**
 Security types of the entries of a package (src/afmpkg/afmpkg.c, computing
 file properties, and src/utils/path-type.c).

 Explicit settings, then one pre-order pass for defaults, then one post-order
 pass that makes directories of public entries public. The passes are proved
 to compute recursive equations over the tree.
 */
module FileTypes {
  import opened Errors
  import opened Options
  import PathText
  import opened PathTree
  import opened PathWalk
  import opened Paths

  datatype PathType =
    Unset | Default | Conf | Data | Exec | Http | Icon | Id | Lib | Plug | Public | PublicExec | PublicLib

  /** Type named by a property value of the manifest. */
  function TypeOfKey(key: string): PathType {
    match key
    case "config" => Conf
    case "data" => Data
    case "executable" => Exec
    case "www" => Http
    case "library" => Lib
    case "plug" => Plug
    case "public" => Public
    case "public-executable" => PublicExec
    case "public-library" => PublicLib
    case _ => Unset
  }

  /** Type of the directories that have a predefined one. */
  function TypeOfDirname(name: string): PathType {
    match name
    case "etc" => Conf
    case "bin" => Exec
    case "htdocs" => Http
    case "lib" => Lib
    case "public" => Public
    case _ => Unset
  }

  predicate PublicLike(t: PathType) {
    t == Public || t == PublicExec || t == PublicLib
  }

  // ------------------------------------------------------------------ equations

  type Types = map<Node, PathType>

  function TypeOf(types: Types, n: Node): PathType {
    if n in types then types[n] else Unset
  }

  /** Effect on a directory of a child whose type is final. */
  function Raise(t: PathType, child: PathType): PathType {
    if PublicLike(child) then Public
    else if child == Plug && t != Public then Plug
    else t
  }

  /** Type of a directory with type `t` of its own and children of these types. */
  function Combine(t: PathType, children: set<PathType>): PathType {
    if exists c :: c in children && PublicLike(c) then Public
    else if Plug in children && t != Public then Plug
    else t
  }

  /** The order in which children are met does not matter. */
  lemma CombineOneMore(t: PathType, children: set<PathType>, c: PathType)
    ensures Combine(t, children + {c}) == Raise(Combine(t, children), c)
  {
    if PublicLike(c) {
      assert c in children + {c};
    } else if x :| x in children && PublicLike(x) {
      assert x in children + {c};
    }
  }

  /** Default type: own, else by directory name, else the parent's. */
  ghost function Inherited(t: Tree, pack: Node, own: Types, dirs: set<Node>, n: Node): PathType
    requires t.Valid() && pack in t.nodes && n in Below(t, pack)
    reads t, t.nodes
    decreases |n.path|
  {
    if TypeOf(own, n) != Unset then TypeOf(own, n)
    else if n == pack then Unset
    else if n in dirs && TypeOfDirname(n.name) != Unset then TypeOfDirname(n.name)
    else
      StepUp(t, pack, n);
      Inherited(t, pack, own, dirs, n.parent)
  }

  lemma StepUp(t: Tree, pack: Node, n: Node)
    requires t.Valid() && pack in t.nodes && n in Below(t, pack) && n != pack
    ensures n != t.root && n.parent != null && n.parent in Below(t, pack)
    ensures n in n.parent.children && n.parent.path < n.path && n.path == n.parent.path + [n.name]
  {
    assert t.Linked(n) && t.Linked(t.root) && t.Linked(pack);
    assert n.path != pack.path;
    assert |n.path| > 0;
    AppendPrefix(pack.path, n.parent.path, n.name);
  }

  lemma InheritedPack(t: Tree, pack: Node, own: Types, dirs: set<Node>)
    requires t.Valid() && pack in t.nodes
    ensures pack in Below(t, pack) && Inherited(t, pack, own, dirs, pack) == TypeOf(own, pack)
  {
  }

  lemma InheritedStep(t: Tree, pack: Node, own: Types, dirs: set<Node>, n: Node)
    requires t.Valid() && pack in t.nodes && n in Below(t, pack) && n != pack
    ensures n.parent != null && n.parent in Below(t, pack)
    ensures Inherited(t, pack, own, dirs, n) ==
            (if TypeOf(own, n) != Unset then TypeOf(own, n)
             else if n in dirs && TypeOfDirname(n.name) != Unset then TypeOfDirname(n.name)
             else Inherited(t, pack, own, dirs, n.parent))
  {
    StepUp(t, pack, n);
  }

  /** Type the pre-order pass gives to one entry. */
  function DefaultOf(types: Types, n: Node, parent: Node, isDir: bool): PathType {
    if TypeOf(types, n) != Unset then TypeOf(types, n)
    else if isDir && TypeOfDirname(n.name) != Unset then TypeOfDirname(n.name)
    else if TypeOf(types, parent) != Unset then TypeOf(types, parent)
    else Id
  }

  /** When the package itself has a type, so has every entry of it. */
  lemma {:induction false} InheritedSet(t: Tree, pack: Node, own: Types, dirs: set<Node>, n: Node)
    requires t.Valid() && pack in t.nodes && n in Below(t, pack) && TypeOf(own, pack) != Unset
    ensures Inherited(t, pack, own, dirs, n) != Unset
    decreases |n.path|
  {
    hide Tree.Valid;
    if n != pack {
      StepUp(t, pack, n);
      InheritedSet(t, pack, own, dirs, n.parent);
    }
  }

  /** Final type: the default one, combined with the final types of the children. */
  ghost function Final(t: Tree, d: Types, n: Node): PathType
    requires t.Valid() && n in t.nodes
    reads t, t.nodes
    decreases |Below(t, n)|
  {
    Combine(TypeOf(d, n), set c | c in n.children && Child(t, n, c) :: Final(t, d, c))
  }

  ghost predicate Child(t: Tree, n: Node, c: Node)
    requires t.Valid() && n in t.nodes && c in n.children
    reads t, t.nodes
    ensures Child(t, n, c) && c in t.nodes && |Below(t, c)| < |Below(t, n)|
  {
    ChildBelow(t, n, c);
    true
  }

  lemma FinalSet(t: Tree, d: Types, n: Node)
    requires t.Valid() && n in Below(t, n) && TypeOf(d, n) != Unset
    ensures Final(t, d, n) != Unset
  {
  }

  /** Every directory of a public entry is public, all the way up to the package. */
  lemma {:induction false} PublicAbove(t: Tree, d: Types, pack: Node, n: Node, m: Node)
    requires t.Valid() && pack in t.nodes && n in Below(t, pack) && m in Below(t, n) && m != n
    requires PublicLike(Final(t, d, m))
    ensures Final(t, d, n) == Public
    decreases |Below(t, n)|
  {
    var c := BelowChild(t, n, m);
    ChildBelow(t, n, c);
    assert Child(t, n, c);
    if c != m {
      PublicAbove(t, d, pack, c, m);
    }
    var kids := set x | x in n.children && Child(t, n, x) :: Final(t, d, x);
    assert Final(t, d, c) in kids;
  }

  /** The parent of a plug is a plug or public. */
  lemma PlugAbove(t: Tree, d: Types, n: Node, c: Node)
    requires t.Valid() && n in t.nodes && c in n.children && c in t.nodes
    requires Final(t, d, c) == Plug
    ensures Final(t, d, n) == Plug || Final(t, d, n) == Public
  {
    assert Child(t, n, c);
    var kids := set x | x in n.children && Child(t, n, x) :: Final(t, d, x);
    assert Final(t, d, c) in kids;
  }

  // --------------------------------------------------------------------- passes

  type Errno = n: int | n > 0 witness 1

  datatype Stat = Regular | Directory | Other | Failed(errno: Errno)

  /** An item "file-properties" of the manifest, as far as it is there. */
  datatype Property = Property(name: Option<string>, value: Option<string>)

  /** The content of a target: its source, and whether its mime type is executable. */
  datatype Content = Content(src: string, executable: bool)

  class Typing {
    const t: Tree
    const pack: Node
    var types: Types
    var rc: int

    ghost predicate Valid()
      reads t, t.nodes
    {
      t.Valid() && pack in t.nodes
    }

    constructor (t: Tree, pack: Node)
      requires t.Valid() && pack in t.nodes
      ensures Valid() && this.t == t && this.pack == pack && rc == 0 && types == map[]
    {
      this.t := t;
      this.pack := pack;
      types := map[];
      rc := 0;
    }

    /** Keeps the first error. */
    method PutRc(code: int)
      modifies this`rc
      ensures rc == if code < 0 && old(rc) >= 0 then code else old(rc)
    {
      if code < 0 && rc >= 0 {
        rc := code;
      }
    }

    /** The path a name of the manifest stands for. */
    ghost function Place(name: string): Path {
      pack.path + Components(name)
    }

    /** The package is private; all its content is unset. */
    method Reset()
      requires Valid()
      modifies this
      ensures Valid() && rc == 0 && TypeOf(types, pack) == Id
      ensures forall n :: n in Below(t, pack) && n != pack ==> TypeOf(types, n) == Unset
    {
      hide Tree.Valid, Below, BelowFirst, Distinct, Ordered;
      rc := 0;
      var all := ForEachContent(t, pack, false, false);
      Content(all, false);
      types := types[pack := Id];
      for k := 0 to |all|
        invariant rc == 0
        invariant forall i :: 0 <= i < k ==> TypeOf(types, all[i]) == Unset
        invariant TypeOf(types, pack) == Id
      {
        types := types[all[k] := Unset];
      }
    }

    /** The content of the package is what lies below it. */
    lemma Content(all: seq<Node>, before: bool)
      requires Valid() && Partial(t, pack, |pack.children|, before, false, all)
      ensures forall n :: n in all ==> n in t.nodes && n in Below(t, pack) && n != pack
      ensures forall n :: n in Below(t, pack) && n != pack ==> n in all
    {
      hide Tree.Valid, BelowFirst, Distinct, Ordered;
      forall n | n in t.nodes
        ensures BelowFirst(t, pack, |pack.children|, n) <==> n in Below(t, pack) && n != pack
      {
        BelowAll(t, pack, n);
      }
    }

    /** Is the path among the first `k` names? */
    ghost predicate Named(names: seq<Option<string>>, k: int, p: Path)
      requires 0 <= k <= |names|
    {
      exists i :: 0 <= i < k && names[i].Some? && p == Place(names[i].value)
    }

    lemma NamedMore(names: seq<Option<string>>, k: nat, p: Path)
      requires k < |names|
      ensures Named(names, k + 1, p) <==> Named(names, k, p) || (names[k].Some? && p == Place(names[k].value))
    {
      if Named(names, k, p) {
        var i :| 0 <= i < k && names[i].Some? && p == Place(names[i].value);
        assert 0 <= i < k + 1;
      }
    }

    /** Are the first `k` names given, and are there entries for them? */
    ghost predicate AllThere(names: seq<Option<string>>, k: int)
      requires 0 <= k <= |names|
      reads t
    {
      forall i :: 0 <= i < k ==> names[i].Some? && Place(names[i].value) in t.Paths()
    }

    /** Gives one type to all the entries named. It is an error exactly when one is missing. */
    method SetAll(names: seq<Option<string>>, ty: PathType)
      requires Valid()
      modifies this
      ensures Valid()
      ensures rc >= 0 <==> old(rc) >= 0 && AllThere(names, |names|)
      ensures forall n :: n in t.nodes ==>
                TypeOf(types, n) == (if Named(names, |names|, n.path) then ty else old(TypeOf(types, n)))
    {
      hide Tree.Valid, Named, Tree.Paths;
      assert forall n :: n in t.nodes ==> !Named(names, 0, n.path) by { NamedNone(names); }
      for k := 0 to |names|
        invariant rc >= 0 <==> old(rc) >= 0 && AllThere(names, k)
        invariant forall n :: n in t.nodes ==>
                    TypeOf(types, n) == (if Named(names, k, n.path) then ty else old(TypeOf(types, n)))
      {
        forall n | n in t.nodes
          ensures Named(names, k + 1, n.path) <==> Named(names, k, n.path) || (names[k].Some? && n.path == Place(names[k].value))
        {
          NamedMore(names, k, n.path);
        }
        if names[k] == None {
          PutRc(-EINVAL);
        } else {
          var entry := t.Get(pack, names[k].value);
          if entry == null {
            PutRc(-ENOENT);
            NoEntry(Place(names[k].value));
          } else {
            OneEntry(entry);
            types := types[entry := ty];
          }
        }
      }
    }

    lemma NamedNone(names: seq<Option<string>>)
      ensures forall p :: !Named(names, 0, p)
    {
    }

    lemma NoEntry(p: Path)
      requires p !in t.Paths()
      ensures forall n :: n in t.nodes ==> n.path != p
    {
    }

    lemma OneEntry(entry: Node)
      requires Valid() && entry in t.nodes
      ensures entry.path in t.Paths()
      ensures forall n :: n in t.nodes && n.path == entry.path ==> n == entry
    {
    }

    /** The property names an entry and gives it a type. */
    ghost predicate Meaningful(p: Property)
      reads t
    {
      p.name.Some? && p.value.Some? && TypeOfKey(p.value.value) != Unset && Place(p.name.value) in t.Paths()
    }

    /** The property can be respected: its entry has no type yet, or that one. */
    ghost predicate Allowed(before: Types, p: Property)
      reads t, t.nodes
    {
      Meaningful(p) &&
      forall n :: n in t.nodes && n.path == Place(p.name.value) ==> TypeOf(before, n) == Unset || TypeOf(before, n) == TypeOfKey(p.value.value)
    }

    /** Two properties do not give the same entry different types. */
    ghost predicate Agree(p: Property, q: Property) {
      p.name.Some? && q.name.Some? && p.value.Some? && q.value.Some? && Place(p.name.value) == Place(q.name.value) ==>
        TypeOfKey(p.value.value) == TypeOfKey(q.value.value)
    }

    /** The first `k` properties can all be respected together. */
    ghost predicate Compatible(before: Types, props: seq<Property>, k: int)
      requires 0 <= k <= |props|
      reads t, t.nodes
    {
      && (forall i :: 0 <= i < k ==> Allowed(before, props[i]))
      && (forall i, j :: 0 <= i < j < k ==> Agree(props[i], props[j]))
    }

    /** Properties that are respected could be. */
    lemma RespectedCompatible(before: Types, now: Types, props: seq<Property>, k: nat)
      requires k <= |props| && forall i :: 0 <= i < k ==> Respected(now, props[i])
      requires forall n :: n in t.nodes && TypeOf(before, n) != Unset ==> TypeOf(now, n) == TypeOf(before, n)
      ensures Compatible(before, props, k)
    {
      forall i, j | 0 <= i < j < k ensures Agree(props[i], props[j]) {
        if props[i].name.Some? && props[j].name.Some? && Place(props[i].name.value) == Place(props[j].name.value) {
          assert Respected(now, props[i]) && Respected(now, props[j]);
          var n :| n in t.nodes && n.path == Place(props[i].name.value);
        }
      }
    }

    /** A type that is new is that of one of the first `k` properties. */
    ghost predicate Sourced(before: Types, now: Types, props: seq<Property>, k: int)
      requires 0 <= k <= |props|
      reads t, t.nodes
    {
      forall n :: n in t.nodes && TypeOf(now, n) != TypeOf(before, n) ==> exists i :: 0 <= i < k && Gives(props[i], n, TypeOf(now, n))
    }

    ghost predicate Gives(p: Property, n: Node, ty: PathType) {
      p.name.Some? && p.value.Some? && Place(p.name.value) == n.path && TypeOfKey(p.value.value) == ty
    }

    lemma SourcedMore(before: Types, now: Types, next: Types, props: seq<Property>, k: nat)
      requires k < |props| && Sourced(before, now, props, k)
      requires forall n :: n in t.nodes ==> TypeOf(next, n) == TypeOf(now, n) || Gives(props[k], n, TypeOf(next, n))
      ensures Sourced(before, next, props, k + 1)
    {
      forall n | n in t.nodes && TypeOf(next, n) != TypeOf(before, n)
        ensures exists i :: 0 <= i < k + 1 && Gives(props[i], n, TypeOf(next, n))
      {
        if TypeOf(next, n) == TypeOf(now, n) {
          var i :| 0 <= i < k && Gives(props[i], n, TypeOf(now, n));
          assert 0 <= i < k + 1;
        } else {
          assert Gives(props[k], n, TypeOf(next, n));
        }
      }
    }

    /** When all can be respected together, the next one meets no other type. */
    lemma NoConflict(before: Types, now: Types, props: seq<Property>, k: nat)
      requires k < |props| && Compatible(before, props, k + 1) && Sourced(before, now, props, k)
      ensures Allowed(now, props[k]) && Compatible(before, props, k)
    {
      assert Allowed(before, props[k]);
      forall n | n in t.nodes && n.path == Place(props[k].name.value)
        ensures TypeOf(now, n) == Unset || TypeOf(now, n) == TypeOfKey(props[k].value.value)
      {
        if TypeOf(now, n) != TypeOf(before, n) {
          var i :| 0 <= i < k && Gives(props[i], n, TypeOf(now, n));
          assert Agree(props[i], props[k]);
        }
      }
    }

    lemma StartProperties(before: Types, props: seq<Property>)
      ensures Compatible(before, props, 0) && Sourced(before, before, props, 0)
    {
    }

    /** Gives an entry its own type. It is an error exactly when it has another, or there is none. */
    method SetProperty(p: Property)
      requires Valid()
      modifies this
      ensures Valid()
      ensures rc >= 0 <==> old(rc) >= 0 && Allowed(old(types), p)
      ensures rc >= 0 ==> Respected(types, p)
      ensures forall n :: n in t.nodes ==>
                TypeOf(types, n) == old(TypeOf(types, n)) || (old(TypeOf(types, n)) == Unset && Gives(p, n, TypeOf(types, n)))
    {
      hide Tree.Valid, Tree.Paths;
      if p.name == None || p.value == None {
        PutRc(-EINVAL);
      } else {
        var entry := t.Get(pack, p.name.value);
        if entry == null {
          PutRc(-ENOENT);
        } else {
          OneEntry(entry);
          var ty := TypeOfKey(p.value.value);
          if ty == Unset {
            PutRc(-EINVAL);
          } else {
            var prv := TypeOf(types, entry);
            if prv == Unset {
              types := types[entry := ty];
            } else if prv != ty {
              PutRc(-EEXIST);
            }
          }
        }
      }
    }

    /** Gives the entries named their own type. It is an error exactly when they cannot all be respected. */
    method SetProperties(props: seq<Property>)
      requires Valid()
      modifies this
      ensures Valid()
      ensures rc >= 0 <==> old(rc) >= 0 && Compatible(old(types), props, |props|)
      ensures rc >= 0 ==> forall i :: 0 <= i < |props| ==> Respected(types, props[i])
      ensures forall n :: n in t.nodes && old(TypeOf(types, n)) != Unset ==> TypeOf(types, n) == old(TypeOf(types, n))
      ensures forall n :: n in t.nodes && !Qualified(props, |props|, n.path) ==> TypeOf(types, n) == old(TypeOf(types, n))
    {
      hide Tree.Valid, Tree.Paths, Qualified, Compatible, Sourced, Allowed, Respected;
      StartProperties(types, props);
      for k := 0 to |props|
        invariant rc >= 0 ==> old(rc) >= 0 && (forall i :: 0 <= i < k ==> Respected(types, props[i]))
        invariant old(rc) >= 0 && Compatible(old(types), props, k) ==> rc >= 0
        invariant Sourced(old(types), types, props, k)
        invariant forall n :: n in t.nodes && old(TypeOf(types, n)) != Unset ==> TypeOf(types, n) == old(TypeOf(types, n))
        invariant forall n :: n in t.nodes && !Qualified(props, k, n.path) ==> TypeOf(types, n) == old(TypeOf(types, n))
      {
        ghost var before := types;
        QualifiedMore(props, k);
        if Compatible(old(types), props, k + 1) { NoConflict(old(types), types, props, k); }
        SetProperty(props[k]);
        RespectedStays(before, types, props);
        SourcedMore(old(types), before, types, props, k);
      }
      if rc >= 0 { RespectedCompatible(old(types), types, props, |props|); }
    }

    /** Is the path that of one of the first `k` properties? */
    ghost predicate Qualified(props: seq<Property>, k: int, p: Path)
      requires 0 <= k <= |props|
    {
      exists i :: 0 <= i < k && props[i].name.Some? && p == Place(props[i].name.value)
    }

    lemma QualifiedMore(props: seq<Property>, k: nat)
      requires k < |props|
      ensures forall p :: Qualified(props, k, p) ==> Qualified(props, k + 1, p)
      ensures props[k].name.Some? ==> Qualified(props, k + 1, Place(props[k].name.value))
    {
      forall p | Qualified(props, k, p) ensures Qualified(props, k + 1, p) {
        var i :| 0 <= i < k && props[i].name.Some? && p == Place(props[i].name.value);
        assert 0 <= i < k + 1;
      }
    }

    /** The entry of a property exists and has its type. */
    ghost predicate Respected(now: Types, p: Property)
      reads t, t.nodes
    {
      && p.name.Some? && p.value.Some? && TypeOfKey(p.value.value) != Unset
      && Place(p.name.value) in t.Paths()
      && (forall n :: n in t.nodes && n.path == Place(p.name.value) ==> TypeOf(now, n) == TypeOfKey(p.value.value))
    }

    /** Types that are set stay, so what was respected is. */
    lemma RespectedStays(before: Types, now: Types, props: seq<Property>)
      requires forall n :: n in t.nodes && TypeOf(before, n) != Unset ==> TypeOf(now, n) == TypeOf(before, n)
      ensures forall i :: 0 <= i < |props| && Respected(before, props[i]) ==> Respected(now, props[i])
    {
    }

    /** Have the first `k` targets that name a source an entry for it? */
    ghost predicate SourcesThere(targets: seq<Option<Content>>, k: int)
      requires 0 <= k <= |targets|
      reads t
    {
      forall i :: 0 <= i < k && targets[i].Some? ==> Place(targets[i].value.src) in t.Paths()
    }

    /** Sources of targets with an executable mime type and no type yet are executable. A missing one is an error. */
    method SetTargets(targets: seq<Option<Content>>)
      requires Valid()
      modifies this
      ensures Valid()
      ensures rc >= 0 <==> old(rc) >= 0 && SourcesThere(targets, |targets|)
      ensures forall n :: n in t.nodes && old(TypeOf(types, n)) != Unset ==> TypeOf(types, n) == old(TypeOf(types, n))
      ensures forall n :: n in t.nodes && old(TypeOf(types, n)) == Unset ==>
                TypeOf(types, n) == if Targeted(targets, |targets|, n.path) then Exec else Unset
    {
      hide Tree.Valid, Tree.Paths, Targeted;
      TargetedNone(targets);
      for k := 0 to |targets|
        invariant rc >= 0 <==> old(rc) >= 0 && SourcesThere(targets, k)
        invariant forall n :: n in t.nodes && old(TypeOf(types, n)) != Unset ==> TypeOf(types, n) == old(TypeOf(types, n))
        invariant forall n :: n in t.nodes && old(TypeOf(types, n)) == Unset ==>
                    TypeOf(types, n) == if Targeted(targets, k, n.path) then Exec else Unset
      {
        TargetedMore(targets, k);
        if targets[k].Some? {
          var entry := t.Get(pack, targets[k].value.src);
          if entry == null {
            PutRc(-ENOENT);
            NoEntry(Place(targets[k].value.src));
          } else {
            OneEntry(entry);
            if TypeOf(types, entry) == Unset && targets[k].value.executable {
              types := types[entry := Exec];
            }
          }
        }
      }
    }

    ghost predicate Aims(target: Option<Content>, p: Path) {
      target.Some? && target.value.executable && p == Place(target.value.src)
    }

    /** Is the path the executable source of one of the first `k` targets? */
    ghost predicate Targeted(targets: seq<Option<Content>>, k: int, p: Path)
      requires 0 <= k <= |targets|
    {
      exists i :: 0 <= i < k && Aims(targets[i], p)
    }

    lemma TargetedNone(targets: seq<Option<Content>>)
      ensures forall p :: !Targeted(targets, 0, p)
    {
    }

    lemma TargetedMore(targets: seq<Option<Content>>, k: nat)
      requires k < |targets|
      ensures forall p :: Targeted(targets, k + 1, p) <==> (Targeted(targets, k, p) || Aims(targets[k], p))
    {
      forall p
        ensures Targeted(targets, k + 1, p) <==> (Targeted(targets, k, p) || Aims(targets[k], p))
      {
        if Targeted(targets, k, p) {
          var i :| 0 <= i < k && Aims(targets[i], p);
          assert 0 <= i < k + 1;
        }
      }
    }

    /**
     The type the manifest gives to an entry of the package. A provided binding
     wins over a plug, both over the type of the package itself; a property
     must agree with what is there; an executable target only fills a gap.
     */
    ghost predicate Declared(own: Types, plugs: seq<Option<string>>, bindings: seq<Option<string>>, props: seq<Property>,
                             targets: seq<Option<Content>>, n: Node)
    {
      if Named(bindings, |bindings|, n.path) then TypeOf(own, n) == PublicLib
      else if Named(plugs, |plugs|, n.path) then TypeOf(own, n) == Plug
      else if n == pack then TypeOf(own, n) == Id
      else Qualified(props, |props|, n.path) || TypeOf(own, n) == if Targeted(targets, |targets|, n.path) then Exec else Unset
    }
  
    // ------------------------------------------------------------------ defaults

    /** The entries of the package that are directories, by what the system says of their text. */
    ghost function Dirs(stat: string -> Stat): set<Node>
      requires Valid()
      reads t, t.nodes
    {
      set n | n in Below(t, pack) && stat(PathText.Spell(t, "", true, pack, n)) == Directory
    }

    /** The pre-order pass has treated the first `k` entries of the walk. */
    ghost predicate Defaulted(now: Types, own: Types, dirs: set<Node>, all: seq<Node>, k: int)
      requires Valid() && 0 <= k <= |all|
      reads t, t.nodes
    {
      && (forall i :: 0 <= i < k ==> all[i] in Below(t, pack))
      && (forall i :: 0 <= i < k ==> TypeOf(now, all[i]) == Inherited(t, pack, own, dirs, all[i]))
      && (forall n :: n in t.nodes && n !in all[..k] ==> TypeOf(now, n) == TypeOf(own, n))
    }

    /** What an entry inherits is known when the walk reaches it. */
    lemma ParentDone(now: Types, own: Types, dirs: set<Node>, all: seq<Node>, k: nat)
      requires Valid() && k < |all| && Defaulted(now, own, dirs, all, k)
      requires Partial(t, pack, |pack.children|, true, false, all)
      requires TypeOf(own, pack) != Unset
      ensures var n := all[k];
              && n in Below(t, pack) && n != pack && n.parent != null && n.parent in Below(t, pack)
              && TypeOf(now, n) == TypeOf(own, n)
              && TypeOf(now, n.parent) == Inherited(t, pack, own, dirs, n.parent) != Unset
    {
      hide Tree.Valid, BelowFirst, Inherited;
      Content(all, true);
      var n := all[k];
      StepUp(t, pack, n);
      var p := n.parent;
      InheritedSet(t, pack, own, dirs, p);
      if p == pack {
        assert p !in all[..k];
        InheritedPack(t, pack, own, dirs);
      } else {
        var j :| 0 <= j < |all| && all[j] == p;
        assert j < k;
      }
      assert n !in all[..k];
    }

    /** One more entry has its default type. */
    lemma NextDefault(now: Types, own: Types, dirs: set<Node>, all: seq<Node>, k: nat, ty: PathType)
      requires Valid() && k < |all| && Defaulted(now, own, dirs, all, k)
      requires Partial(t, pack, |pack.children|, true, false, all) && TypeOf(own, pack) != Unset
      requires all[k].parent != null && ty == DefaultOf(now, all[k], all[k].parent, all[k] in dirs)
      ensures Defaulted(now[all[k] := ty], own, dirs, all, k + 1)
    {
      hide Tree.Valid, BelowFirst, Ordered;
      ParentDone(now, own, dirs, all, k);
      var n := all[k];
      InheritedStep(t, pack, own, dirs, n);
      assert all[..k + 1] == all[..k] + [n];
    }

    lemma StartDefaults(own: Types, dirs: set<Node>, all: seq<Node>)
      requires Valid()
      ensures Defaulted(own, own, dirs, all, 0)
    {
    }

    /** The entries the pre-order pass comes to: the package, and those before the first one that is refused. */
    ghost function Reached(room: nat): set<Node>
      requires Valid()
      reads t, t.nodes
    {
      set n | n in t.nodes && (n == pack || n in PathText.Nodes(PathText.TrailKids(t, "", pack, |pack.children|, true, false, room).log))
    }

    /** All the entries are reached exactly when none is refused. */
    lemma ReachedAll(room: nat)
      requires Valid()
      ensures Reached(room) == Below(t, pack) <==> PathText.Fits(t, "", true, pack, room)
    {
      hide Tree.Valid, PathText.TrailKids, PathText.Fits, Partial, Below, OrderKids;
      var w := PathText.TrailKids(t, "", pack, |pack.children|, true, false, room);
      var all := OrderKids(t, pack, |pack.children|, true, false);
      PathText.TrailKidsLead(t, "", pack, |pack.children|, true, false, room);
      PathText.TrailKidsFit(t, "", pack, |pack.children|, true, false, room);
      PathText.FitsAll(t, "", pack, room);
      OrderKidsPartial(t, pack, |pack.children|, true, false);
      Content(all, true);
      SelfBelow(t, pack);
      Inside();
      if w.ok {
        assert Reached(room) == Below(t, pack);
      } else {
        PathText.TrailKidsMiss(t, "", pack, |pack.children|, true, room);
        LastMissing(all, PathText.Nodes(w.log));
        assert all[|all| - 1] in all && all[|all| - 1] !in Reached(room);
      }
    }

    lemma LastMissing(all: seq<Node>, some: seq<Node>)
      requires Partial(t, pack, |pack.children|, true, false, all) && some <= all && |some| < |all|
      ensures all[|all| - 1] !in some
    {
      hide Ordered, BelowFirst;
      assert forall i :: 0 <= i < |some| ==> some[i] == all[i];
    }

    lemma EndDefaults(now: Types, own: Types, dirs: set<Node>, all: seq<Node>, k: nat, room: nat)
      requires Valid() && k <= |all| && Defaulted(now, own, dirs, all, k) && TypeOf(own, pack) != Unset
      requires Partial(t, pack, |pack.children|, true, false, all)
      requires all[..k] == PathText.Nodes(PathText.TrailKids(t, "", pack, |pack.children|, true, false, room).log)
      ensures forall n :: n in Below(t, pack) ==>
                TypeOf(now, n) == if n in Reached(room) then Inherited(t, pack, own, dirs, n) else TypeOf(own, n)
    {
      hide Tree.Valid, BelowFirst, Ordered, Distinct, Inherited, PathText.TrailKids;
      Content(all, true);
      InheritedPack(t, pack, own, dirs);
      forall n | n in Below(t, pack)
        ensures TypeOf(now, n) == if n in Reached(room) then Inherited(t, pack, own, dirs, n) else TypeOf(own, n)
      {
        if n in all[..k] {
          var i :| 0 <= i < k && all[i] == n;
        } else if n == pack {
          assert n !in all;
        }
      }
    }

    /** Are the entries reached below the package all files or directories? */
    ghost predicate Sound(stat: string -> Stat, room: nat)
      requires Valid()
      reads t, t.nodes
    {
      forall n :: n in Reached(room) && n in Below(t, pack) && n != pack ==>
        var st := stat(PathText.Spell(t, "", true, pack, n)); st == Regular || st == Directory
    }

    lemma SoundIff(stat: string -> Stat, log: seq<PathText.Visit>, room: nat)
      requires Valid() && log == PathText.TrailKids(t, "", pack, |pack.children|, true, false, room).log
      requires PathText.Told(t, "", true, pack, log, room)
      ensures Sound(stat, room) <==>
              forall i :: 0 <= i < |log| ==> stat(log[i].text) == Regular || stat(log[i].text) == Directory
    {
      hide Tree.Valid, PathText.TrailKids, PathText.Spell, Below;
      forall i | 0 <= i < |log| ensures log[i].node in Reached(room) {
        Inside();
        assert log[i].node in PathText.Nodes(log) by { assert PathText.Nodes(log)[i] == log[i].node; }
      }
      forall n | n in Reached(room) && n != pack ensures exists i :: 0 <= i < |log| && log[i].node == n {
        var i :| 0 <= i < |log| && PathText.Nodes(log)[i] == n;
      }
    }

    /** The text in the buffer tells whether the entry is a directory. */
    lemma Visited(stat: string -> Stat, log: seq<PathText.Visit>, k: nat)
      requires Valid() && PathText.Spelled(t, "", true, pack, log) && k < |log| && log[k].node != pack
      ensures var n := log[k].node;
              && n in Below(t, pack) && n.parent != null
              && (n in Dirs(stat) <==> stat(log[k].text) == Directory)
    {
      hide Tree.Valid;
      StepUp(t, pack, log[k].node);
    }

    /**
     Gives every entry that has none its default type, top down, up to the first
     entry the walk refuses. That refusal is not reported; it is an error exactly
     when an entry reached is neither a file nor a directory.
     */
    method SetDefaults(a: array<char>, off: nat, stat: string -> Stat)
      requires Valid() && off < a.Length && TypeOf(types, pack) != Unset
      modifies this, a
      ensures Valid()
      ensures rc >= 0 <==> old(rc) >= 0 && Sound(stat, a.Length - off)
      ensures a[..off] == old(a[..off])
      ensures rc >= 0 ==> forall n :: n in Below(t, pack) ==>
                TypeOf(types, n) == if n in Reached(a.Length - off) then Inherited(t, pack, old(types), Dirs(stat), n)
                                    else old(TypeOf(types, n))
    {
      hide Tree.Valid, Below, Partial, PathText.Spelled, PathText.Fits, Inherited, Defaulted, DefaultOf, Reached;
      hide OrderKids, PathText.TrailKids, PathText.Trail;
      ghost var own := types;
      ghost var dirs := Dirs(stat);
      ghost var room: nat := a.Length - off;
      assert a[off..off + 0] == "";
      var _, log := PathText.DoForEach(t, pack, a, off, a.Length - off, 0, true, false, true);
      ghost var all := OrderKids(t, pack, |pack.children|, true, false);
      OrderKidsPartial(t, pack, |pack.children|, true, false);
      PathText.TrailKidsLead(t, "", pack, |pack.children|, true, false, room);
      assert forall i :: 0 <= i < |log| ==> log[i].node == PathText.Nodes(log)[i] == all[i];
      StartDefaults(own, dirs, all);
      var k := 0;
      while k < |log|
        invariant 0 <= k <= |log| <= |all| && rc == old(rc)
        invariant forall i :: 0 <= i < k ==> stat(log[i].text) == Regular || stat(log[i].text) == Directory
        invariant a[..off] == old(a[..off])
        invariant Defaulted(types, own, dirs, all, k)
      {
        var n := log[k].node;
        var st := stat(log[k].text);
        Visited(stat, log, k);
        if st.Failed? || st == Other {
          SoundIff(stat, log, room);
        }
        if st.Failed? {
          PutRc(-(st.errno as int));
          return;
        }
        if st == Other {
          PutRc(-EINVAL);
          return;
        }
        var ty := DefaultOf(types, n, n.parent, st == Directory);
        NextDefault(types, own, dirs, all, k, ty);
        types := types[n := ty];
        k := k + 1;
      }
      SoundIff(stat, log, room);
      assert all[..k] == PathText.Nodes(log);
      EndDefaults(types, own, dirs, all, k, room);
    }

    // ------------------------------------------------------------ public status

    /** Final types of the children met among the first `k` entries of the walk. */
    ghost function Seen(d: Types, all: seq<Node>, k: int, m: Node): set<PathType>
      requires Valid() && 0 <= k <= |all| && m in t.nodes
      reads t, t.nodes
    {
      set c | c in m.children && Child(t, m, c) && c in all[..k] :: Final(t, d, c)
    }

    /** The post-order pass has treated the first `k` entries of the walk. */
    ghost predicate Raised(now: Types, d: Types, all: seq<Node>, k: int)
      requires Valid() && 0 <= k <= |all|
      reads t, t.nodes
    {
      forall m :: m in Below(t, pack) ==> TypeOf(now, m) == Combine(TypeOf(d, m), Seen(d, all, k, m))
    }

    lemma StartRaise(d: Types, all: seq<Node>)
      requires Valid()
      ensures Raised(d, d, all, 0)
    {
      hide Final, Tree.Valid;
      forall m | m in Below(t, pack)
        ensures Seen(d, all, 0, m) == {}
      {
      }
    }

    /** When the walk reaches an entry all its children are done, so its type is final. */
    lemma ChildrenDone(now: Types, d: Types, all: seq<Node>, k: nat, m: Node)
      requires Valid() && Traversal(t, pack, false, false, all) && k <= |all| && Raised(now, d, all, k)
      requires m in Below(t, pack) && (k < |all| ==> m == all[k] || m in all[..k])
      ensures TypeOf(now, m) == Final(t, d, m)
    {
      hide Tree.Valid;
      forall c | c in m.children
        ensures c in all[..k]
      {
        ChildBelow(t, m, c);
        PrefixTrans(pack.path, m.path, c.path);
        assert c in Below(t, pack);
        var i :| 0 <= i < |all| && all[i] == c;
        var j :| 0 <= j < |all| && all[j] == m && (k < |all| ==> j <= k);
        assert i < j;
      }
      var kids := set c | c in m.children && Child(t, m, c) :: Final(t, d, c);
      assert Seen(d, all, k, m) == kids;
    }

    lemma PrefixTrans(a: Path, b: Path, c: Path)
      requires a <= b <= c
      ensures a <= c
    {
    }
  
    /** Meeting one more entry raises its parent. */
    lemma SeenMore(d: Types, all: seq<Node>, k: nat, m: Node)
      requires Valid() && k < |all| && m in t.nodes
      ensures all[k] in m.children ==> Child(t, m, all[k]) && Seen(d, all, k + 1, m) == Seen(d, all, k, m) + {Final(t, d, all[k])}
      ensures all[k] !in m.children ==> Seen(d, all, k + 1, m) == Seen(d, all, k, m)
    {
      hide Tree.Valid, Final;
      assert all[..k + 1] == all[..k] + [all[k]];
      if all[k] in m.children {
        assert Child(t, m, all[k]);
      }
    }

    /** One more entry met: only its parent changes. */
    lemma NextRaise(now: Types, next: Types, d: Types, all: seq<Node>, k: nat)
      requires Valid() && Traversal(t, pack, false, false, all) && k < |all| && Raised(now, d, all, k)
      requires all[k] == pack ==> next == now
      requires all[k] != pack ==>
                 && all[k].parent != null
                 && TypeOf(next, all[k].parent) == Raise(TypeOf(now, all[k].parent), TypeOf(now, all[k]))
                 && forall m :: m in t.nodes && m != all[k].parent ==> TypeOf(next, m) == TypeOf(now, m)
      ensures Raised(next, d, all, k + 1)
    {
      hide Tree.Valid, Final, Traversal, Seen, Combine, Raise;
      var n := all[k];
      Walked(all, k);
      ChildrenDone(now, d, all, k, n);
      forall m | m in Below(t, pack)
        ensures TypeOf(next, m) == Combine(TypeOf(d, m), Seen(d, all, k + 1, m))
      {
        SeenMore(d, all, k, m);
        if n in m.children {
          ChildBelow(t, m, n);
          NotAbove(m, n);
          CombineOneMore(TypeOf(d, m), Seen(d, all, k, m), Final(t, d, n));
        } else if n != pack {
          StepUp(t, pack, n);
        }
      }
    }

    lemma Walked(all: seq<Node>, k: nat)
      requires Traversal(t, pack, false, false, all) && k < |all|
      ensures all[k] in t.nodes && all[k] in Below(t, pack)
    {
    }

    lemma NotAbove(m: Node, n: Node)
      requires m in Below(t, pack) && n.path == m.path + [n.name]
      ensures n != pack
    {
    }

    lemma EndRaise(now: Types, d: Types, all: seq<Node>)
      requires Valid() && Traversal(t, pack, false, false, all) && Raised(now, d, all, |all|)
      ensures forall m :: m in Below(t, pack) ==> TypeOf(now, m) == Final(t, d, m)
    {
      hide Tree.Valid, Final, Traversal, Seen, Combine;
      forall m | m in Below(t, pack)
        ensures TypeOf(now, m) == Final(t, d, m)
      {
        ChildrenDone(now, d, all, |all|, m);
      }
    }

    /** Makes the directories of public entries public, and those of plugs plugs, bottom up. */
    method Propagate()
      requires Valid()
      modifies this`types
      ensures Valid()
      ensures forall n :: n in Below(t, pack) ==> TypeOf(types, n) == Final(t, old(types), n)
    {
      hide Tree.Valid, Final, Traversal, Seen, Combine, Raised, Below;
      ghost var d := types;
      var all := ForEach(t, pack, false, false);
      StartRaise(d, all);
      for k := 0 to |all|
        invariant Raised(types, d, all, k)
      {
        var n := all[k];
        ghost var now := types;
        Walked(all, k);
        if n != pack {
          StepUp(t, pack, n);
        }
        match TypeOf(types, n) {
          case Plug =>
            if n != pack {
              if TypeOf(types, n.parent) != Public {
                types := types[n.parent := Plug];
              }
            }
          case Public | PublicExec | PublicLib =>
            if n != pack {
              types := types[n.parent := Public];
            }
          case _ =>
        }
        NextRaise(now, types, d, all, k);
      }
      EndRaise(types, d, all);
    }

    /** What the pre-order pass leaves: the inherited type up to the first refusal, the declared one after it. */
    ghost predicate DefaultsUpTo(own: Types, d: Types, stat: string -> Stat, room: nat)
      requires Valid()
      reads t, t.nodes
    {
      forall n :: n in Below(t, pack) ==>
        TypeOf(d, n) == if n in Reached(room) then Inherited(t, pack, own, Dirs(stat), n) else TypeOf(own, n)
    }

    /** The types all follow the equations exactly when every entry without a declared type is reached. */
    lemma DefaultsRightIff(own: Types, d: Types, stat: string -> Stat, room: nat)
      requires Valid() && TypeOf(own, pack) != Unset && DefaultsUpTo(own, d, stat, room)
      ensures (forall n :: n in Below(t, pack) ==> TypeOf(d, n) == Inherited(t, pack, own, Dirs(stat), n)) <==>
              forall n :: n in Below(t, pack) && TypeOf(own, n) == Unset ==> n in Reached(room)
      ensures forall n :: n in Below(t, pack) ==> (TypeOf(d, n) == Unset <==> n !in Reached(room) && TypeOf(own, n) == Unset)
      ensures PathText.Fits(t, "", true, pack, room) ==> forall n :: n in Below(t, pack) ==> n in Reached(room)
    {
      hide Tree.Valid, Dirs, Reached, PathText.Fits;
      ReachedAll(room);
      forall n | n in Below(t, pack)
        ensures Inherited(t, pack, own, Dirs(stat), n) != Unset
        ensures TypeOf(own, n) != Unset ==> Inherited(t, pack, own, Dirs(stat), n) == TypeOf(own, n)
      {
        InheritedSet(t, pack, own, Dirs(stat), n);
      }
    }

    /**
     All the passes. When no error is met every entry has the type the manifest
     declares, or a default one up to the first entry the walk refuses, combined
     with the types below it.
     */
    method Compute(plugs: seq<Option<string>>, bindings: seq<Option<string>>, props: seq<Property>,
                   targets: seq<Option<Content>>, a: array<char>, off: nat, stat: string -> Stat)
      returns (ghost own: Types, ghost d: Types)
      requires Valid() && off < a.Length
      modifies this, a
      ensures Valid() && a[..off] == old(a[..off])
      ensures rc >= 0 ==> TypeOf(own, pack) != Unset && DefaultsUpTo(own, d, stat, a.Length - off)
      ensures rc >= 0 ==> forall n :: n in Below(t, pack) ==> TypeOf(types, n) == Final(t, d, n)
      ensures rc >= 0 && PathText.Fits(t, "", true, pack, a.Length - off) ==> forall n :: n in Below(t, pack) ==>
                TypeOf(d, n) == Inherited(t, pack, own, Dirs(stat), n) != Unset && TypeOf(types, n) != Unset
      ensures rc >= 0 <==> Fulfilled(plugs, bindings, props, targets) && Sound(stat, a.Length - off)
      ensures rc >= 0 ==> forall i :: 0 <= i < |props| ==> Respected(own, props[i])
      ensures rc >= 0 ==> forall n :: n in Below(t, pack) ==> Declared(own, plugs, bindings, props, targets, n)
    {
      hide Tree.Valid, Final, Inherited, PathText.Fits, Respected, Dirs, Declared, Reached, Below, Fulfilled, Sound;
      d := map[];
      Explicit(plugs, bindings, props, targets);
      own := types;
      if rc >= 0 {
        SetDefaults(a, off, stat);
        d := types;
        if rc >= 0 {
          Propagate();
          DefaultsRightIff(own, d, stat, a.Length - off);
          FinalsSet(d);
        }
      }
    }

    lemma FinalsSet(d: Types)
      requires Valid()
      ensures forall n :: n in Below(t, pack) ==> n in t.nodes && (TypeOf(d, n) != Unset ==> Final(t, d, n) != Unset)
    {
      hide Tree.Valid, Final;
      forall n | n in Below(t, pack) ensures n in t.nodes && (TypeOf(d, n) != Unset ==> Final(t, d, n) != Unset) {
        if TypeOf(d, n) != Unset {
          SelfBelow(t, n);
          FinalSet(t, d, n);
        }
      }
    }

    lemma Inside()
      requires Valid()
      ensures forall n :: n in Below(t, pack) ==> n in t.nodes
      ensures pack in Below(t, pack)
    {
    }

    /** The type of an entry before the properties are looked at. */
    ghost function Preset(plugs: seq<Option<string>>, bindings: seq<Option<string>>, n: Node): PathType {
      if Named(bindings, |bindings|, n.path) then PublicLib
      else if Named(plugs, |plugs|, n.path) then Plug
      else if n == pack then Id
      else Unset
    }

    /** Is all that the manifest names there, and can its properties be respected together? */
    ghost predicate Fulfilled(plugs: seq<Option<string>>, bindings: seq<Option<string>>, props: seq<Property>,
                              targets: seq<Option<Content>>)
      reads t, t.nodes
    {
      && AllThere(plugs, |plugs|) && AllThere(bindings, |bindings|) && SourcesThere(targets, |targets|)
      && (forall i :: 0 <= i < |props| ==> PropertyFits(plugs, bindings, props[i]))
      && (forall i, j :: 0 <= i < j < |props| ==> Agree(props[i], props[j]))
    }

    ghost predicate PropertyFits(plugs: seq<Option<string>>, bindings: seq<Option<string>>, p: Property)
      reads t, t.nodes
    {
      Meaningful(p) &&
      forall n :: n in t.nodes && n.path == Place(p.name.value) ==> Preset(plugs, bindings, n) in {Unset, TypeOfKey(p.value.value)}
    }

    lemma PresetCompatible(before: Types, plugs: seq<Option<string>>, bindings: seq<Option<string>>, props: seq<Property>)
      requires Valid() && forall n :: n in Below(t, pack) ==> TypeOf(before, n) == Preset(plugs, bindings, n)
      ensures Compatible(before, props, |props|) <==>
              && (forall i :: 0 <= i < |props| ==> PropertyFits(plugs, bindings, props[i]))
              && (forall i, j :: 0 <= i < j < |props| ==> Agree(props[i], props[j]))
    {
      hide Tree.Valid, Agree, Meaningful, Preset;
      forall i | 0 <= i < |props| ensures Allowed(before, props[i]) <==> PropertyFits(plugs, bindings, props[i]) {
        forall n | n in t.nodes && props[i].name.Some? && n.path == Place(props[i].name.value)
          ensures TypeOf(before, n) == Preset(plugs, bindings, n)
        {
          assert pack.path <= n.path;
        }
        if Meaningful(props[i]) { MeaningfulHas(props[i]); }
      }
    }

    lemma MeaningfulHas(p: Property)
      requires Meaningful(p)
      ensures p.name.Some? && p.value.Some?
    {
    }

    /** The passes over the manifest. They fail exactly when it is not fulfilled. */
    method Explicit(plugs: seq<Option<string>>, bindings: seq<Option<string>>, props: seq<Property>, targets: seq<Option<Content>>)
      requires Valid()
      modifies this
      ensures Valid() && TypeOf(types, pack) != Unset
      ensures rc >= 0 <==> Fulfilled(plugs, bindings, props, targets)
      ensures rc >= 0 ==> forall i :: 0 <= i < |props| ==> Respected(types, props[i])
      ensures rc >= 0 ==> forall n :: n in Below(t, pack) ==> Declared(types, plugs, bindings, props, targets, n)
    {
      hide Tree.Valid, Respected, Named, Qualified, Targeted, AllThere, SourcesThere, PropertyFits, Agree, Compatible;
      Inside();
      Reset();
      if rc >= 0 {
        SetAll(plugs, Plug);
      }
      if rc >= 0 {
        SetAll(bindings, PublicLib);
      }
      if rc >= 0 {
        PresetCompatible(types, plugs, bindings, props);
        SetProperties(props);
      }
      if rc >= 0 {
        ghost var before := types;
        SetTargets(targets);
        RespectedStays(before, types, props);
      }
    }
  }
}
