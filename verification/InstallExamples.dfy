/**
 Installations of small trees, from the paths added to what the security
 manager is told.
 */
module InstallExamples {
  import opened Brackets
  import FileTypes
  import opened Installer
  import opened Limits
  import opened Options
  import opened PackageMeaning
  import opened PackageTypes
  import opened PathTree
  import opened Paths

  /** A manifest that asks for nothing that may be missing. */
  ghost predicate Undemanding(m: Manifest) {
    && m.plugs == [] && m.bindings == [] && m.props == [] && m.targets == []
    && forall text :: m.stat(text) == FileTypes.Regular || m.stat(text) == FileTypes.Directory
  }

  lemma UndemandingInstallable(files: set<Path>, root: Path, order: seq<Path>, room: int, m: Manifest)
    requires Undemanding(m)
    ensures Installable(files, root, order, room, m)
  {
  }

  /** Packages whose manifests ask for nothing, and no file outside them. */
  lemma UndemandingCan(all: set<Path>, added: set<Path>, contents: map<Path, seq<Path>>, slashed: Leads, prefix: string, room: int,
                       manifests: Manifests)
    requires all <= contents.Keys && Unowned(all, added) == {} && forall text :: Undemanding(manifests(text))
    ensures CanInstall(all, added, contents, slashed, prefix, room, manifests)
  {
    hide Undemanding, Installable, Unowned, IsPackage, Owned, Among;
    forall r | r in all && IsPackage(all, r) ensures PackageFine(all, r, contents, prefix, room, manifests) {
      UndemandingInstallable(Owned(all, r), r, Among(contents[r], Owned(all, r)), room, manifests(prefix + Join(r, true)));
    }
  }

  lemma ContentsKeys(t: Tree)
    requires t.Valid()
    ensures t.Paths() <= Contents(t).Keys
  {
  }

  // --------------------------------------------------------------- a path too long

  /** The files of that tree belong to one package, whose path is short. */
  lemma LongTreeFacts(added: set<Path>)
    requires added == {["p", "config.xml"], ["p", LongName()]}
    ensures !IsPackage(LongTree(), []) && Unowned(LongTree(), added) == {}
    ensures forall p :: p in LongTree() && IsPackage(LongTree(), p) ==> |Join(p, true)| < PATH_MAX
  {
    var all, p: Path := LongTree(), ["p"];
    assert |LongName()| == 5000 && LongName() != "manifest.yml" && LongName() != "config.xml";
    assert p + CONFIG == ["p", "config.xml"];
    forall q | q in all && IsPackage(all, q) ensures q == p {
      assert |q + MANIFEST| == |q| + 2 && (q + MANIFEST)[|q| + 1] == "manifest.yml";
      assert |q + CONFIG| == |q| + 1 && (q + CONFIG)[|q|] == "config.xml";
    }
    assert p[..0] == [] && Join(p, true) == "/p";
    forall q | q in added ensures !IsOwner(all, q, None) { assert q[..1] == p; }
  }

  lemma LongPaths()
    ensures Components("/p/config.xml") == ["p", "config.xml"] && Components("/p/" + LongName()) == ["p", LongName()]
    ensures var t: set<Path> := {[]}; LongTree() == t + Tree.Prefixes(["p", "config.xml"]) + Tree.Prefixes(["p", LongName()])
  {
    LongIsName();
    hide LongName, Components, Tree.Prefixes, IsName;
    FileOfP("config.xml");
    assert "/p/" + "config.xml" == "/p/config.xml";
    FileOfP(LongName());
  }

  lemma LongIsName()
    ensures IsName("config.xml") && IsName(LongName())
  {
  }

  lemma FileOfP(name: string)
    requires IsName(name)
    ensures Components("/p/" + name) == ["p", name] && Tree.Prefixes(["p", name]) == {[], ["p"], ["p", name]}
  {
    hide Components, Tree.Prefixes;
    TwoJoined("p", name);
    TwoPrefixes("p", name);
    assert "/" + "p" + "/" == "/p/";
  }

  lemma TwoJoined(x: string, y: string)
    requires IsName(x) && IsName(y)
    ensures Components("/" + x + "/" + y) == [x, y]
  {
    hide Components;
    var p: Path := [x, y];
    assert p == [x] + [y] && [x] == [] + [x];
    JoinStep([], x, true);
    JoinStep([x], y, true);
    EmptyJoin();
    assert Join(p, true) == "/" + x + "/" + y;
    JoinComponents(p, true);
  }

  lemma TwoPrefixes(x: string, y: string)
    ensures Tree.Prefixes([x, y]) == {[], [x], [x, y]}
  {
    var p: Path := [x, y];
    assert p[..0] == [] && p[..1] == [x] && p[..2] == p;
    assert forall k :: 0 <= k <= 2 ==> p[..k] in {[], [x], [x, y]};
  }

  method LongFiles() returns (t: Tree)
    ensures fresh(t) && fresh(t.nodes) && t.Valid() && t.Paths() == LongTree()
    ensures t.Added() == {["p", "config.xml"], ["p", LongName()]}
  {
    hide Tree.Valid, Tree.Prefixes, Tree.Paths, Tree.Added, LongTree, LongName, Components;
    t := new Tree();
    LongPaths();
    var one := t.Add("/p/config.xml");
    var two := t.Add("/p/" + LongName());
  }

  /** Installs a tree at the root of the file system, with operations that do not fail. */
  method InstallAtRoot(t: Tree, manifests: Manifests) returns (rc: Rc, ops: Operations)
    requires t.Valid() && !IsPackage(t.Paths(), [])
    requires forall p :: p in t.Paths() && IsPackage(t.Paths(), p) ==> |Join(p, true)| < PATH_MAX
    modifies t, t.nodes`children
    ensures rc == 0 <==> CanInstall(old(t.Paths()), old(t.Added()), old(Contents(t)), old(SlashedIn(t.nodes)), "", PATH_MAX, manifests)
    ensures rc == 0 ==> Installed(ops.log, old(t.Paths()), old(t.Added()), old(SlashedIn(t.nodes)), "", PATH_MAX, manifests)
  {
    hide IsPackage, Tree.Valid, Tree.Added, Tree.Paths, Join, Installed, SlashedIn, AllFit, CanInstall, Contents, TaggedOnce;
    var a := new char[PATH_MAX];
    ops := new Operations(k => 0);
    assert a[..0] == "";
    rc := Install(t, a, 0, manifests, ops);
  }

  /** The tree with a long name, installed with success, and not wholly tagged. */
  method InstallLong() returns (rc: Rc, ops: Operations)
    ensures rc == 0 && exists p :: p in Owned(LongTree(), ["p"]) && !TaggedOnce(ops.log, LongTree(), p)
  {
    var manifests: Manifests := path => Manifest([], [], [], [], text => FileTypes.Regular);
    assert forall text :: Undemanding(manifests(text));
    hide IsPackage, Tree.Valid, Tree.Added, Tree.Paths, Unowned, Join, Installed, TaggedOnce, Owned, LongTree, LongName, SlashedIn;
    hide CanInstall, Undemanding, Contents;
    var t := LongFiles();
    LongTreeFacts(t.Added());
    ContentsKeys(t);
    ghost var added, slashed := t.Added(), SlashedIn(t.nodes);
    UndemandingCan(t.Paths(), added, Contents(t), slashed, "", PATH_MAX, manifests);
    rc, ops := InstallAtRoot(t, manifests);
    LongPathMissed(ops.log, added, slashed, manifests);
  }

  // ------------------------------------------------------------------ a small package

  const P: Path := ["p"]
  const APP: Path := ["p", "bin", "app"]

  /** A package with an executable, named by a target. */
  function AppTree(): set<Path> {
    {[], P, ["p", "config.xml"], ["p", "bin"], APP}
  }

  function AppManifest(): Manifest {
    Manifest([], [], [], [Some(FileTypes.Content("bin/app", true))], text => if text == "/bin" then FileTypes.Directory else FileTypes.Regular)
  }

  lemma AppJoins()
    ensures Join(P, true) == "/p" && Join(["p", "bin"], true) == "/p/bin" && Join(APP, true) == "/p/bin/app"
    ensures Join(["p", "config.xml"], true) == "/p/config.xml"
  {
    hide Join;
    assert P == [] + ["p"] && ["p", "bin"] == P + ["bin"] && APP == ["p", "bin"] + ["app"] && ["p", "config.xml"] == P + ["config.xml"];
    EmptyJoin();
    JoinStep([], "p", true);
    JoinStep(P, "bin", true);
    JoinStep(P, "config.xml", true);
    JoinStep(["p", "bin"], "app", true);
  }

  lemma AppPaths()
    ensures Components("/p/bin/app") == APP && Components("bin/app") == ["bin", "app"]
    ensures Tree.Prefixes(APP) == {[], P, ["p", "bin"], APP}
  {
    hide Components, Join;
    var p := APP;
    assert p[..0] == [] && p[..1] == P && p[..2] == ["p", "bin"] && p[..3] == p;
    assert forall k :: 0 <= k <= 3 ==> p[..k] in {[], P, ["p", "bin"], APP};
    AppJoins();
    assert IsPath(p);
    JoinComponents(p, true);
    TwoNames("bin", "app");
    assert "bin" + "/" + "app" == "bin/app";
  }

  method AppFiles() returns (t: Tree)
    ensures fresh(t) && fresh(t.nodes) && t.Valid() && t.Paths() == AppTree()
    ensures t.Added() == {["p", "config.xml"], APP} && SlashedIn(t.nodes)(P)
  {
    LongIsName();
    hide Tree.Valid, Tree.Prefixes, Tree.Added, Components, Join;
    FileOfP("config.xml");
    AppPaths();
    assert "/p/" + "config.xml" == "/p/config.xml";
    t := new Tree();
    ghost var none := t.nodes;
    assert P !in t.Paths();
    var one := t.Add("/p/config.xml");
    assert P in t.Paths();
    ghost var n :| n in t.nodes && n.path == P;
    assert n !in none && n.slash;
    var two := t.Add("/p/bin/app");
    assert n in t.nodes;
  }

  lemma AppPackage(p: Path)
    ensures p in AppTree() ==> (IsPackage(AppTree(), p) <==> p == P)
    ensures |p| > 1 ==> !IsPackage(AppTree(), p)
  {
    var q, r := p + MANIFEST, p + CONFIG;
    assert |q| == |p| + 2 && q[|p| + 1] == "manifest.yml" && |r| == |p| + 1 && r[|p|] == "config.xml";
    assert P + CONFIG == ["p", "config.xml"];
    assert p == [] || |p| == 1 || |p| > 1;
    if |p| == 1 { assert p == [p[0]] && r == [p[0], "config.xml"]; }
  }

  lemma AppOwner(p: Path)
    requires p in AppTree() && p != []
    ensures IsOwner(AppTree(), p, Some(P)) && !IsOwner(AppTree(), p, None)
  {
    hide IsPackage, AppTree;
    assert P <= p && p[..1] == P by { AppBelow(p); }
    AppPackage(P);
    assert P in AppTree() by { AppHas(); }
    forall k | 1 < k <= |p| ensures !IsPackage(AppTree(), p[..k]) { AppPackage(p[..k]); }
  }

  lemma AppBelow(p: Path)
    requires p in AppTree() && p != []
    ensures P <= p && p[..1] == P
  {
  }

  lemma AppHas()
    ensures P in AppTree() && APP in AppTree() && ["p", "bin"] in AppTree() && [] in AppTree()
  {
  }

  lemma AppFits(p: Path)
    requires p in AppTree()
    ensures |Join(p, true)| < PATH_MAX
  {
    hide Join;
    EmptyJoin();
    if p == [] {
    } else if p == P {
      AppJoins();
    } else if p == ["p", "bin"] {
      AppJoins();
    } else if p == APP {
      AppJoins();
    } else {
      AppJoins();
    }
  }

  lemma AppOwned()
    ensures Owned(AppTree(), P) == AppTree() - {[]}
  {
    hide IsOwner, AppTree;
    NotBelow(AppTree());
    forall p | p in AppTree() && p != [] ensures IsOwner(AppTree(), p, Some(P)) { AppOwner(p); }
  }

  lemma AppUnowned(added: set<Path>)
    requires added == {["p", "config.xml"], APP}
    ensures Unowned(AppTree(), added) == {}
  {
    hide IsOwner;
    AppOwner(["p", "config.xml"]);
    AppOwner(APP);
  }

  lemma AppFacts(added: set<Path>)
    requires added == {["p", "config.xml"], APP}
    ensures !IsPackage(AppTree(), []) && IsPackage(AppTree(), P) && Unowned(AppTree(), added) == {}
    ensures Owned(AppTree(), P) == AppTree() - {[]} && AllFit(Owned(AppTree(), P), true, PATH_MAX)
    ensures forall p :: p in AppTree() && IsPackage(AppTree(), p) ==> |Join(p, true)| < PATH_MAX
  {
    hide IsPackage, IsOwner, Join, AppTree, Unowned, Owned;
    AppHas();
    AppPackage([]);
    AppPackage(P);
    AppOwned();
    AppUnowned(added);
    forall p | p in AppTree() ensures |Join(p, true)| < PATH_MAX { AppFits(p); }
  }

  lemma NotBelow(all: set<Path>)
    ensures !IsOwner(all, [], Some(P))
  {
  }

  lemma AppInstallable(order: seq<Path>)
    ensures Installable(AppTree() - {[]}, P, order, PATH_MAX, AppManifest())
  {
    hide Components, Join;
    AppPaths();
    assert P + ["bin", "app"] == APP;
  }

  lemma AppCan(added: set<Path>, contents: map<Path, seq<Path>>, slashed: Leads, manifests: Manifests)
    requires added == {["p", "config.xml"], APP} && AppTree() <= contents.Keys && forall text :: manifests(text) == AppManifest()
    ensures CanInstall(AppTree(), added, contents, slashed, "", PATH_MAX, manifests)
  {
    AppFacts(added);
    hide Installable, Unowned, IsPackage, Owned, Among, AppManifest, Join;
    forall r | r in AppTree() && IsPackage(AppTree(), r) ensures PackageFine(AppTree(), r, contents, "", PATH_MAX, manifests) {
      AppPackage(r);
      AppInstallable(Among(contents[r], Owned(AppTree(), r)));
    }
  }

  lemma AppShape()
    ensures var files := AppTree() - {[]}; Leaf(files, APP) && Whole(files, P, APP) && APP in files && APP != P
  {
    var files := AppTree() - {[]};
    assert APP[..1] == P && APP[..2] == ["p", "bin"] && APP[..3] == APP;
    forall k | 1 <= k <= 3 ensures APP[..k] in files { assert k == 1 || k == 2 || k == 3; }
  }

  lemma AppSource()
    ensures var m := AppManifest();
            && |m.targets| == 1 && m.targets[0].Some? && m.targets[0].value.executable && P + Components(m.targets[0].value.src) == APP
            && !Listed(P, m.plugs, APP) && !Listed(P, m.bindings, APP) && !HasProperty(P, m, APP)
  {
    hide Components;
    AppPaths();
    assert P + ["bin", "app"] == APP;
  }

  /** In every solution for the package the executable has that type. */
  lemma AppKind(own: Kinds, d: Kinds, kinds: Kinds)
    requires Solution(AppTree() - {[]}, P, AppManifest(), own, d, kinds)
    ensures KindAt(kinds, APP) == FileTypes.Exec
  {
    hide Solution, Components, AppTree, AppManifest, Leaf, Whole, Listed, HasProperty, Typing, KindAt;
    var files, m := AppTree() - {[]}, AppManifest();
    AppShape();
    AppSource();
    TargetKind(files, P, m, own, d, kinds, 0);
    LeafKind(files, P, m, own, d, kinds, APP);
    assert APP[..3] == APP && Silent(P, m, own, APP, 3);
    NearestGives(files, P, m, own, d, kinds, APP, 2);
  }

  /** What an installation of it that succeeds has told. */
  lemma AppTold(log: seq<Bracket>, added: set<Path>, slashed: Leads, manifests: Manifests)
    requires added == {["p", "config.xml"], APP} && slashed(P) && forall text :: manifests(text) == AppManifest()
    requires Installed(log, AppTree(), added, slashed, "", PATH_MAX, manifests)
    ensures exists i, j :: 0 <= i < |log| && 0 <= j < |log[i].tags| && log[i].owner == Some(P) &&
              log[i].tags[j] == Tag(APP, "/p/bin/app", FileTypes.Exec)
  {
    hide Unowned, IsPackage, Owned, AppManifest, Join, AllFit, AppTree, PackageBracket, DefaultBracket;
    AppFacts(added);
    AppHas();
    var i :| 0 <= i < |log| && log[i].owner == Some(P);
    assert PackageBracket(log[i], Owned(AppTree(), P), P, true, "", PATH_MAX, AppManifest());
    var j := AppTag(log[i]);
  }

  lemma AppTag(b: Bracket) returns (j: nat)
    requires PackageBracket(b, AppTree() - {[]}, P, true, "", PATH_MAX, AppManifest()) && AllFit(AppTree() - {[]}, true, PATH_MAX)
    ensures j < |b.tags| && b.tags[j] == Tag(APP, "/p/bin/app", FileTypes.Exec)
  {
    hide AppManifest, Join, AllFit, Solution, AppTree;
    AppHas();
    var files := AppTree() - {[]};
    assert APP in files;
    j :| 0 <= j < |b.tags| && b.tags[j].path == APP;
    var own, d, kinds :| Solution(files, P, AppManifest(), own, d, kinds) &&
                         forall i :: 0 <= i < |b.tags| ==> b.tags[i].kind == KindAt(kinds, b.tags[i].path);
    AppKind(own, d, kinds);
    AppJoins();
    assert b.tags[j].text == "" + Join(APP, true) == "/p/bin/app";
  }

  /** The package is installed, and its executable is tagged as one, under its path. */
  method InstallApp() returns (rc: Rc, ops: Operations)
    ensures rc == 0
    ensures exists i, j :: 0 <= i < |ops.log| && 0 <= j < |ops.log[i].tags| && ops.log[i].owner == Some(P) &&
              ops.log[i].tags[j] == Tag(APP, "/p/bin/app", FileTypes.Exec)
  {
    hide IsPackage, Tree.Valid, Tree.Added, Tree.Paths, Unowned, Owned, Join, Installed, AppTree, AppManifest, SlashedIn, CanInstall, Contents;
    var manifests: Manifests := path => AppManifest();
    var t := AppFiles();
    AppFacts(t.Added());
    ContentsKeys(t);
    ghost var added, slashed := t.Added(), SlashedIn(t.nodes);
    AppCan(added, Contents(t), slashed, manifests);
    rc, ops := InstallAtRoot(t, manifests);
    AppTold(ops.log, added, slashed, manifests);
  }

  // --------------------------------------------------------------- a file of no package

  const F: Path := ["f"]

  method PlainFiles() returns (t: Tree)
    ensures fresh(t) && fresh(t.nodes) && t.Valid() && t.Paths() == {[], F} && t.Added() == {F} && SlashedIn(t.nodes)(F)
  {
    assert F[..0] == [] && F[..1] == F;
    assert Tree.Prefixes(F) == {[], F} by { assert forall k :: 0 <= k <= 1 ==> F[..k] in {[], F}; }
    PlainPath();
    hide Tree.Valid, Tree.Prefixes, Tree.Added, Components, Join;
    t := new Tree();
    ghost var none := t.nodes;
    assert F !in t.Paths();
    var one := t.Add("/f");
    assert one !in none && one.slash;
  }

  lemma PlainPath()
    ensures Components("/f") == F && Join(F, true) == "/f"
  {
    hide Components, Join;
    EmptyJoin();
    JoinStep([], "f", true);
    assert F == [] + ["f"] && IsName("f") && IsPath(F) && Join(F, true) == "/f";
    JoinComponents(F, true);
  }

  lemma PlainFacts()
    ensures var all: set<Path> := {[], F};
            && (forall p :: p in all ==> !IsPackage(all, p)) && Unowned(all, {F}) == {F} && (forall p :: p in all ==> IsOwner(all, p, None))
  {
    var all: set<Path> := {[], F};
    forall p | |p| <= 1 ensures !IsPackage(all, p) {
      assert |p + MANIFEST| == |p| + 2 && (p + CONFIG)[|p|] == "config.xml" && |p + CONFIG| == |p| + 1;
      if |p| == 0 { assert p + CONFIG == ["config.xml"]; }
    }
    forall p | p in all ensures IsOwner(all, p, None) {
      forall k | 0 <= k <= |p| ensures !IsPackage(all, p[..k]) {}
    }
  }

  lemma PlainCan(contents: map<Path, seq<Path>>, slashed: Leads, manifests: Manifests)
    ensures CanInstall({[], F}, {F}, contents, slashed, "", PATH_MAX, manifests)
  {
    PlainFacts();
    PlainPath();
    hide IsPackage, IsOwner, Join, Unowned, PackageFine;
    assert DefaultsFit({[], F}, slashed, PATH_MAX);
  }

  /** A file of no package is tagged alone, with the default type. */
  method InstallPlain(manifests: Manifests) returns (rc: Rc, ops: Operations)
    ensures rc == 0 && ops.log == [Bracket(None, [Tag(F, "/f", FileTypes.Default)])]
  {
    hide IsPackage, Tree.Valid, Tree.Added, Tree.Paths, Unowned, Owned, Join, SlashedIn, Contents, IsOwner, CanInstall, Installed;
    PlainPath();
    PlainFacts();
    var t := PlainFiles();
    ghost var slashed := SlashedIn(t.nodes);
    PlainCan(Contents(t), slashed, manifests);
    rc, ops := InstallAtRoot(t, manifests);
    PlainTold(ops.log, slashed, manifests);
  }

  lemma PlainTold(log: seq<Bracket>, slashed: Leads, manifests: Manifests)
    requires slashed(F) && Installed(log, {[], F}, {F}, slashed, "", PATH_MAX, manifests)
    ensures log == [Bracket(None, [Tag(F, "/f", FileTypes.Default)])]
  {
    PlainFacts();
    PlainPath();
    hide IsPackage, Unowned, Owned, Join, IsOwner, PackageBracket;
    forall i | 0 <= i < |log| ensures log[i].owner == None {}
    var i :| 0 <= i < |log| && log[i].owner == None;
    assert log[0].owner == log[|log| - 1].owner;
    assert |log| == 1;
    var b := log[0];
    assert DefaultBracket(b, {F}, slashed, "");
    var j :| 0 <= j < |b.tags| && b.tags[j].path == F;
    assert b.tags[0].path == b.tags[|b.tags| - 1].path;
    assert |b.tags| == 1;
    assert F[..1] == F && "" + "/f" == "/f" && FileLead(slashed, F);
    assert b.tags[0] == Tag(F, "/f", FileTypes.Default);
    assert b.tags == [b.tags[0]] && log == [b];
  }
}
