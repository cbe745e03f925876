/**
 What the equations of `PackageTypes` say of the files of a package: which type
 a name of the manifest gives, which a directory gives, and which a file gives
 to the directories above it (src/afmpkg/afmpkg.c, src/utils/path-type.c).
 */
module PackageMeaning {
  import opened FileTypes
  import opened Options
  import opened PackageTypes
  import opened Paths

  // -------------------------------------------------------------------- manifests

  /** Is the path named by some item of the list? */
  ghost predicate Listed(root: Path, names: seq<Option<string>>, p: Path) {
    exists i :: 0 <= i < |names| && names[i].Some? && root + Components(names[i].value) == p
  }

  ghost predicate HasProperty(root: Path, m: Manifest, p: Path) {
    exists i :: 0 <= i < |m.props| && m.props[i].name.Some? && root + Components(m.props[i].name.value) == p
  }

  /** A provided binding is a public library, whatever else names it; any other plug is a plug. */
  lemma NamedKinds(files: set<Path>, root: Path, m: Manifest, own: Kinds, d: Kinds, kinds: Kinds, p: Path)
    requires Solution(files, root, m, own, d, kinds) && p in files
    ensures Listed(root, m.bindings, p) ==> KindAt(own, p) == PublicLib
    ensures Listed(root, m.plugs, p) && !Listed(root, m.bindings, p) ==> KindAt(own, p) == Plug
    ensures p == root && !Listed(root, m.plugs, p) && !Listed(root, m.bindings, p) ==> KindAt(own, p) == Id
  {
    hide Components;
    assert DeclaredAt(own, root, m, p);
    assert Listed(root, m.bindings, p) <==> NamedBy(root, m.bindings, p);
    assert Listed(root, m.plugs, p) <==> NamedBy(root, m.plugs, p);
  }

  /** The source of a target with an executable mime type is executable, unless the manifest says otherwise. */
  lemma TargetKind(files: set<Path>, root: Path, m: Manifest, own: Kinds, d: Kinds, kinds: Kinds, i: nat)
    requires Solution(files, root, m, own, d, kinds) && i < |m.targets| && m.targets[i].Some? && m.targets[i].value.executable
    requires var p := root + Components(m.targets[i].value.src);
             p in files && p != root && !Listed(root, m.plugs, p) && !Listed(root, m.bindings, p) && !HasProperty(root, m, p)
    ensures KindAt(own, root + Components(m.targets[i].value.src)) == Exec
  {
    hide Components;
    var p := root + Components(m.targets[i].value.src);
    assert DeclaredAt(own, root, m, p);
    assert !NamedBy(root, m.bindings, p) && !NamedBy(root, m.plugs, p) && !QualifiedBy(root, m.props, p);
  }

  /** What nothing in the manifest names has no type of its own. */
  lemma UnnamedKind(files: set<Path>, root: Path, m: Manifest, own: Kinds, d: Kinds, kinds: Kinds, p: Path)
    requires Solution(files, root, m, own, d, kinds) && p in files && p != root
    requires !Listed(root, m.plugs, p) && !Listed(root, m.bindings, p) && !HasProperty(root, m, p)
    requires forall i :: 0 <= i < |m.targets| && m.targets[i].Some? && m.targets[i].value.executable ==>
               root + Components(m.targets[i].value.src) != p
    ensures KindAt(own, p) == Unset
  {
    hide Components;
    assert DeclaredAt(own, root, m, p);
    assert !NamedBy(root, m.bindings, p) && !NamedBy(root, m.plugs, p) && !QualifiedBy(root, m.props, p) && !TargetedBy(root, m.targets, p);
  }

  /** The types that the values of properties give. */
  lemma PropertyKind(files: set<Path>, root: Path, m: Manifest, own: Kinds, d: Kinds, kinds: Kinds, i: nat)
    requires Solution(files, root, m, own, d, kinds) && i < |m.props|
    ensures m.props[i].name.Some? && m.props[i].value.Some?
    ensures var value, p := m.props[i].value.value, root + Components(m.props[i].name.value);
            && p in files
            && value in {"config", "data", "executable", "www", "library", "plug", "public", "public-executable", "public-library"}
            && KindAt(own, p) == (
                 if value == "config" then Conf else if value == "data" then Data else if value == "executable" then Exec
                 else if value == "www" then Http else if value == "library" then Lib else if value == "plug" then Plug
                 else if value == "public" then Public else if value == "public-executable" then PublicExec else PublicLib)
  {
    hide Components;
    assert RespectedAt(own, files, root, m.props[i]);
  }

  // ------------------------------------------------------------------ directories

  /** The directory at position `i` of the path has a name that gives a type. */
  predicate Typing(root: Path, m: Manifest, p: Path, i: int) {
    |root| <= i < |p| && IsDirectory(root, m, p[..i + 1]) && p[i] in {"etc", "bin", "htdocs", "lib", "public"}
  }

  /** The type that such a name gives. */
  function TypeFrom(name: string): PathType {
    if name == "etc" then Conf
    else if name == "bin" then Exec
    else if name == "htdocs" then Http
    else if name == "lib" then Lib
    else Public
  }

  lemma DirnamesAre(name: string)
    ensures name in {"etc", "bin", "htdocs", "lib", "public"} ==> TypeOfDirname(name) == TypeFrom(name)
    ensures name !in {"etc", "bin", "htdocs", "lib", "public"} ==> TypeOfDirname(name) == Unset
  {
  }

  /** One level: a type of its own, the one its name gives, or that of the directory above. */
  lemma DefaultStep(files: set<Path>, root: Path, m: Manifest, own: Kinds, d: Kinds, kinds: Kinds, p: Path)
    requires Solution(files, root, m, own, d, kinds) && p in files && root <= p && |root| < |p|
    ensures KindAt(d, p) ==
            if KindAt(own, p) != Unset then KindAt(own, p)
            else if Typing(root, m, p, |p| - 1) then TypeFrom(p[|p| - 1])
            else KindAt(d, p[..|p| - 1])
  {
    hide Join;
    assert DefaultAt(own, d, root, m, p);
    assert p[..|p| - 1 + 1] == p;
    DirnamesAre(p[|p| - 1]);
  }

  lemma TypingAbove(root: Path, m: Manifest, p: Path, k: int)
    requires 0 <= k < |p| - 1
    ensures Typing(root, m, p[..|p| - 1], k) <==> Typing(root, m, p, k)
  {
    hide IsDirectory;
    assert p[..|p| - 1][..k + 1] == p[..k + 1];
  }

  /** No place of the path after the first `i` names gives a type. */
  ghost predicate Silent(root: Path, m: Manifest, own: Kinds, p: Path, i: int) {
    forall k :: 0 <= i < k <= |p| ==> SilentAt(root, m, own, p, k)
  }

  ghost predicate SilentAt(root: Path, m: Manifest, own: Kinds, p: Path, k: int)
    requires 0 < k <= |p|
  {
    KindAt(own, p[..k]) == Unset && !Typing(root, m, p, k - 1)
  }

  lemma SilentAbove(root: Path, m: Manifest, own: Kinds, p: Path, i: nat)
    requires Silent(root, m, own, p, i) && i < |p|
    ensures Silent(root, m, own, p[..|p| - 1], i) && KindAt(own, p) == Unset && !Typing(root, m, p, |p| - 1)
  {
    hide Typing, KindAt;
    var q := p[..|p| - 1];
    assert SilentAt(root, m, own, p, |p|) && p[..|p|] == p;
    forall k | i < k <= |q| ensures SilentAt(root, m, own, q, k) {
      assert SilentAt(root, m, own, p, k) && q[..k] == p[..k];
      TypingAbove(root, m, p, k - 1);
    }
  }

  /** The path and those above it, down from the package, are files of it. */
  ghost predicate Whole(files: set<Path>, root: Path, p: Path) {
    root <= p && forall k :: |root| <= k <= |p| ==> p[..k] in files
  }

  lemma WholeAbove(files: set<Path>, root: Path, p: Path)
    requires Whole(files, root, p) && |root| < |p|
    ensures p in files && Whole(files, root, p[..|p| - 1])
  {
    var q := p[..|p| - 1];
    assert p[..|p|] == p && root == p[..|root|] == q[..|root|];
    assert forall k :: 0 <= k <= |q| ==> q[..k] == p[..k];
  }

  /**
   A path without a type of its own gets the one of the nearest place at or above
   it that has one: a type of its own, or a directory whose name gives one.
   */
  lemma {:induction false} NearestGives(files: set<Path>, root: Path, m: Manifest, own: Kinds, d: Kinds, kinds: Kinds, p: Path, i: nat)
    requires Solution(files, root, m, own, d, kinds) && |root| <= i < |p| && Whole(files, root, p) && Silent(root, m, own, p, i + 1)
    ensures KindAt(own, p[..i + 1]) != Unset ==> KindAt(d, p) == KindAt(own, p[..i + 1])
    ensures KindAt(own, p[..i + 1]) == Unset && Typing(root, m, p, i) ==> KindAt(d, p) == TypeFrom(p[i])
    decreases |p|
  {
    hide Solution, Typing, Silent, TypeFrom;
    WholeAbove(files, root, p);
    DefaultStep(files, root, m, own, d, kinds, p);
    if i + 1 < |p| {
      SilentAbove(root, m, own, p, i + 1);
      TypingAbove(root, m, p, i);
      assert p[..|p| - 1][..i + 1] == p[..i + 1];
      NearestGives(files, root, m, own, d, kinds, p[..|p| - 1], i);
    } else {
      assert p[..i + 1] == p;
    }
  }

  /** Without any such place it has the type of the package. */
  lemma {:induction false} NothingGives(files: set<Path>, root: Path, m: Manifest, own: Kinds, d: Kinds, kinds: Kinds, p: Path)
    requires Solution(files, root, m, own, d, kinds) && Whole(files, root, p) && Silent(root, m, own, p, |root|)
    ensures KindAt(d, p) == KindAt(own, root)
    decreases |p|
  {
    if |root| < |p| {
      hide Solution, Typing, Silent;
      WholeAbove(files, root, p);
      DefaultStep(files, root, m, own, d, kinds, p);
      SilentAbove(root, m, own, p, |root|);
      NothingGives(files, root, m, own, d, kinds, p[..|p| - 1]);
    } else {
      assert p == root && p[..|root|] == root;
      assert DefaultAt(own, d, root, m, root) && DeclaredAt(own, root, m, root);
    }
  }

  // ----------------------------------------------------------------- final types

  /** No file lies below the path. */
  ghost predicate Leaf(files: set<Path>, p: Path) {
    forall q :: q in files ==> !(p < q)
  }

  /** A file keeps its default type. */
  lemma LeafKind(files: set<Path>, root: Path, m: Manifest, own: Kinds, d: Kinds, kinds: Kinds, p: Path)
    requires Solution(files, root, m, own, d, kinds) && p in files && Leaf(files, p)
    ensures KindAt(kinds, p) == KindAt(d, p)
  {
    assert KindsBelow(files, kinds, p) == {};
  }

  /**
   A directory is public as soon as one of its entries ends public in some way;
   else a plug, when one ends a plug and it is not public by itself; else what it
   was.
   */
  lemma DirectoryKind(files: set<Path>, root: Path, m: Manifest, own: Kinds, d: Kinds, kinds: Kinds, p: Path)
    requires Solution(files, root, m, own, d, kinds) && p in files
    ensures (exists q :: q in files && IsChild(p, q) && KindAt(kinds, q) in {Public, PublicExec, PublicLib}) ==> KindAt(kinds, p) == Public
    ensures (forall q :: q in files && IsChild(p, q) ==> KindAt(kinds, q) !in {Public, PublicExec, PublicLib}) ==>
              if (exists q :: q in files && IsChild(p, q) && KindAt(kinds, q) == Plug) && KindAt(d, p) != Public
              then KindAt(kinds, p) == Plug
              else KindAt(kinds, p) == KindAt(d, p)
  {
    hide IsChild, KindAt, DeclaredAt, DefaultAt, RespectedAt;
    var below := KindsBelow(files, kinds, p);
    if q :| q in files && IsChild(p, q) && KindAt(kinds, q) in {Public, PublicExec, PublicLib} {
      assert KindAt(kinds, q) in below;
    }
    if q :| q in files && IsChild(p, q) && KindAt(kinds, q) == Plug {
      assert KindAt(kinds, q) in below;
    }
  }

  /**
   In a package whose manifest asks for nothing, a file directly in a directory
   bin, lib, etc or htdocs is tagged as its name says; one directly in the
   package as the package.
   */
  lemma UsualKinds(files: set<Path>, root: Path, m: Manifest, own: Kinds, d: Kinds, kinds: Kinds, dir: string, name: string)
    requires Solution(files, root, m, own, d, kinds) && m.plugs == [] && m.bindings == [] && m.props == [] && m.targets == []
    requires root in files && root + [dir] in files && root + [dir, name] in files && Leaf(files, root + [dir, name])
    requires IsDirectory(root, m, root + [dir]) && !IsDirectory(root, m, root + [dir, name])
    ensures dir == "bin" ==> KindAt(kinds, root + [dir, name]) == Exec
    ensures dir == "lib" ==> KindAt(kinds, root + [dir, name]) == Lib
    ensures dir == "etc" ==> KindAt(kinds, root + [dir, name]) == Conf
    ensures dir == "htdocs" ==> KindAt(kinds, root + [dir, name]) == Http
    ensures dir !in {"etc", "bin", "htdocs", "lib", "public"} ==> KindAt(kinds, root + [dir, name]) == Id
  {
    var p := root + [dir, name];
    var n := |root|;
    assert p[..n] == root && p[..n + 1] == root + [dir] && p[..n + 2] == p && p[n] == dir;
    forall q | q in files && q != root ensures KindAt(own, q) == Unset { UnnamedKind(files, root, m, own, d, kinds, q); }
    NamedKinds(files, root, m, own, d, kinds, root);
    LeafKind(files, root, m, own, d, kinds, p);
    forall k | n <= k <= |p| ensures p[..k] in files {
      assert k == n || k == n + 1 || k == n + 2;
    }
    assert !Typing(root, m, p, n + 1);
    assert KindAt(own, p[..n + 2]) == Unset && KindAt(own, p[..n + 1]) == Unset;
    NearestGives(files, root, m, own, d, kinds, p, n);
    if dir !in {"etc", "bin", "htdocs", "lib", "public"} {
      NothingGives(files, root, m, own, d, kinds, p);
    }
  }

  // -------------------------------------------------------- acceptable manifests

  /** Manifests about one file of a package. */
  function About(plugs: seq<Option<string>>, props: seq<Property>, targets: seq<Option<Content>>): Manifest {
    Manifest(plugs, [], props, targets, text => Regular)
  }

  function Prop(value: string): Property {
    Property(Some("x"), Some(value))
  }

  /**
   A property that repeats what is known is accepted, one that contradicts it is
   not; no more is one without file, without value or with an unknown one, a plug
   or a target without file.
   */
  lemma AcceptedManifests(root: Path)
    ensures var files := {root, root + ["x"]};
            && Acceptable(files, root, About([Some("x")], [Prop("plug")], []))
            && Acceptable(files, root, About([], [Prop("data"), Prop("data")], [Some(Content("x", false))]))
            && !Acceptable(files, root, About([Some("x")], [Prop("data")], []))
            && !Acceptable(files, root, About([], [Prop("data"), Prop("config")], []))
            && !Acceptable(files, root, About([], [Prop("nothing")], []))
            && !Acceptable(files, root, About([], [Property(Some("x"), None)], []))
            && !Acceptable(files, root, About([], [Property(None, Some("data"))], []))
            && !Acceptable(files, root, About([None], [], []))
            && !Acceptable({root}, root, About([Some("x")], [], []))
            && !Acceptable({root}, root, About([], [Prop("data")], []))
            && !Acceptable({root}, root, About([], [], [Some(Content("x", false))]))
  {
    KnownAgain(root);
    Contradicted(root);
    Incomplete({root, root + ["x"]}, root);
    Lost(root);
    hide Acceptable;
  }

  lemma KnownAgain(root: Path)
    ensures var files := {root, root + ["x"]};
            && Acceptable(files, root, About([Some("x")], [Prop("plug")], []))
            && Acceptable(files, root, About([], [Prop("data"), Prop("data")], [Some(Content("x", false))]))
  {
    hide Components;
    OneName("x");
    var p := root + ["x"];
    var plug := About([Some("x")], [Prop("plug")], []);
    assert NamedBy(root, plug.plugs, p) by { assert plug.plugs[0] == Some("x"); }
  }

  lemma Contradicted(root: Path)
    ensures var files := {root, root + ["x"]};
            && !Acceptable(files, root, About([Some("x")], [Prop("data")], []))
            && !Acceptable(files, root, About([], [Prop("data"), Prop("config")], []))
  {
    hide Components;
    OneName("x");
    var p := root + ["x"];
    var bad := About([Some("x")], [Prop("data")], []);
    assert NamedBy(root, bad.plugs, p) by { assert bad.plugs[0] == Some("x"); }
    assert !PropertyAt({root, p}, root, bad, bad.props[0]);
    var two := About([], [Prop("data"), Prop("config")], []);
    assert !SameType(root, two.props[0], two.props[1]);
  }

  lemma Incomplete(files: set<Path>, root: Path)
    ensures && !Acceptable(files, root, About([], [Prop("nothing")], []))
            && !Acceptable(files, root, About([], [Property(Some("x"), None)], []))
            && !Acceptable(files, root, About([], [Property(None, Some("data"))], []))
            && !Acceptable(files, root, About([None], [], []))
  {
    hide Components;
    var none := About([], [Prop("nothing")], []);
    assert !PropertyAt(files, root, none, none.props[0]);
    var noValue := About([], [Property(Some("x"), None)], []);
    assert !PropertyAt(files, root, noValue, noValue.props[0]);
    var noName := About([], [Property(None, Some("data"))], []);
    assert !PropertyAt(files, root, noName, noName.props[0]);
    var noPlug := About([None], [], []);
    assert noPlug.plugs[0] == None;
  }

  lemma Lost(root: Path)
    ensures && !Acceptable({root}, root, About([Some("x")], [], []))
            && !Acceptable({root}, root, About([], [Prop("data")], []))
            && !Acceptable({root}, root, About([], [], [Some(Content("x", false))]))
  {
    hide Components;
    OneName("x");
    assert root + ["x"] != root;
    var lost := About([Some("x")], [], []);
    assert lost.plugs[0] == Some("x");
    var lostProp := About([], [Prop("data")], []);
    assert !PropertyAt({root}, root, lostProp, lostProp.props[0]);
    var lostTarget := About([], [], [Some(Content("x", false))]);
    assert lostTarget.targets[0] == Some(Content("x", false));
  }
}
