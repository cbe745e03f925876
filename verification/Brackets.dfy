/**
 What an installation tells the security manager: brackets from `begin` to
 `end`, with the files tagged in between. Everything here is about paths; the
 tree is gone when an installation ends.
 */
module Brackets {
  import opened FileTypes
  import opened Limits
  import opened Options
  import opened PackageTypes
  import opened Paths

  /** A file tagged: its path, the text given for it and its type. */
  datatype Tag = Tag(path: Path, text: string, kind: PathType)

  /** What happened between a `begin` and its `end`: whose it was and what was tagged. */
  datatype Bracket = Bracket(owner: Option<Path>, tags: seq<Tag>)

  const MANIFEST: Path := [".rpconfig", "manifest.yml"]
  const CONFIG: Path := ["config.xml"]

  /** Is a package rooted at `p`, given the set of all paths? */
  ghost predicate IsPackage(all: set<Path>, p: Path) {
    p + MANIFEST in all || p + CONFIG in all
  }

  /** The nearest package root at or above a path. */
  ghost predicate IsOwner(all: set<Path>, p: Path, owner: Option<Path>) {
    match owner
    case None => forall k :: 0 <= k <= |p| ==> !IsPackage(all, p[..k])
    case Some(r) =>
      && r <= p && IsPackage(all, r)
      && forall k :: |r| < k <= |p| ==> !IsPackage(all, p[..k])
  }

  /** The paths whose nearest package is `r`. */
  ghost function Owned(all: set<Path>, r: Path): set<Path> {
    set p | p in all && IsOwner(all, p, Some(r))
  }

  /** A path has one owner. */
  lemma OneOwner(all: set<Path>, p: Path, a: Option<Path>, b: Option<Path>)
    requires IsOwner(all, p, a) && IsOwner(all, p, b)
    ensures a == b
  {
    hide IsPackage;
    assert a.Some? ==> p[..|a.value|] == a.value;
    assert b.Some? ==> p[..|b.value|] == b.value;
  }

  // ------------------------------------------------------------------------ tags

  ghost predicate Tagged(log: seq<Bracket>, p: Path, i: int, j: int) {
    0 <= i < |log| && 0 <= j < |log[i].tags| && log[i].tags[j].path == p
  }

  /** Tagged exactly once, in the bracket of its owner. */
  ghost predicate TaggedOnce(log: seq<Bracket>, all: set<Path>, p: Path) {
    exists i, j :: Tagged(log, p, i, j) && IsOwner(all, p, log[i].owner) && OnlyTag(log, p, i, j)
  }

  ghost predicate OnlyTag(log: seq<Bracket>, p: Path, i: int, j: int) {
    forall i', j' :: Tagged(log, p, i', j') ==> i' == i && j' == j
  }

  /** No path is tagged twice, and only paths of the set are. */
  ghost predicate Within(tags: seq<Tag>, files: set<Path>) {
    && (forall i, j :: 0 <= i < j < |tags| ==> tags[i].path != tags[j].path)
    && (forall i :: 0 <= i < |tags| ==> tags[i].path in files)
  }

  /** All the paths of the set are tagged. */
  ghost predicate Reaches(tags: seq<Tag>, files: set<Path>) {
    forall p :: p in files ==> exists i :: 0 <= i < |tags| && tags[i].path == p
  }

  /** Do all the texts, with or without leading slash, leave room for a null? */
  ghost predicate AllFit(files: set<Path>, lead: bool, room: int) {
    forall p :: p in files ==> |Join(p, lead)| < room
  }

  ghost predicate Texts(tags: seq<Tag>, prefix: string, lead: bool) {
    forall i :: 0 <= i < |tags| ==> tags[i].text == prefix + Join(tags[i].path, lead)
  }

  /** The types are a solution of the equations for the files of the package. */
  ghost predicate Solved(tags: seq<Tag>, files: set<Path>, root: Path, m: Manifest) {
    exists own, d, kinds ::
      Solution(files, root, m, own, d, kinds) && forall i :: 0 <= i < |tags| ==> tags[i].kind == KindAt(kinds, tags[i].path)
  }

  /**
   The bracket of a package: its files are tagged at most once, under their
   paths; all of them exactly when they fit the path buffer; and when they fit
   with their leading slash, with the types of the equations.
   */
  ghost predicate PackageBracket(b: Bracket, files: set<Path>, root: Path, lead: bool, prefix: string, room: int, m: Manifest) {
    && b.owner == Some(root)
    && Within(b.tags, files) && Texts(b.tags, prefix, lead)
    && (Reaches(b.tags, files) <==> AllFit(files, lead, room))
    && (AllFit(files, true, room) ==> Solved(b.tags, files, root, m))
  }

  /** The manifest found at a package, by the text of its path. */
  type Manifests = string -> Manifest

  /** Were the names of first-level entries written with a slash? */
  type Leads = Path -> bool

  /** The paths of the texts of a package start with a slash, unless it is at the first level and was added without. */
  predicate PackageLead(slashed: Leads, root: Path) {
    |root| > 1 || slashed(root)
  }

  predicate FileLead(slashed: Leads, p: Path) {
    p != [] && slashed(p[..1])
  }

  /** The bracket of the files of no package. */
  ghost predicate DefaultBracket(b: Bracket, files: set<Path>, slashed: Leads, prefix: string) {
    && b.owner == None && Within(b.tags, files) && Reaches(b.tags, files)
    && forall i :: 0 <= i < |b.tags| ==>
         b.tags[i].kind == Default && b.tags[i].text == prefix + Join(b.tags[i].path, FileLead(slashed, b.tags[i].path))
  }

  /** Do the paths that belong to no package fit? At the first level there must be room for a slash, written or not. */
  ghost predicate DefaultsFit(all: set<Path>, slashed: Leads, room: int) {
    forall p :: p in all && p != [] && IsOwner(all, p, None) ==> |Join(p, |p| == 1 || FileLead(slashed, p))| < room
  }

  /** Can the package be installed, with the files that it is nearest to? */
  ghost predicate PackageFine(all: set<Path>, r: Path, contents: map<Path, seq<Path>>, prefix: string, room: int, manifests: Manifests) {
    r in contents && Installable(Owned(all, r), r, Among(contents[r], Owned(all, r)), room, manifests(prefix + Join(r, true)))
  }

  ghost predicate PackagesFine(all: set<Path>, contents: map<Path, seq<Path>>, prefix: string, room: int, manifests: Manifests) {
    forall r :: r in all && IsPackage(all, r) ==> PackageFine(all, r, contents, prefix, room, manifests)
  }

  /** The paths of no package fit, if there are files of none. */
  ghost predicate RestFine(all: set<Path>, added: set<Path>, slashed: Leads, room: int) {
    Unowned(all, added) == {} || DefaultsFit(all, slashed, room)
  }

  /** Nothing keeps a tree from being installed but the operations that it takes. */
  ghost predicate CanInstall(all: set<Path>, added: set<Path>, contents: map<Path, seq<Path>>, slashed: Leads, prefix: string, room: int,
                             manifests: Manifests)
  {
    PackagesFine(all, contents, prefix, room, manifests) && RestFine(all, added, slashed, room)
  }

  /** The files that were added and belong to no package. */
  ghost function Unowned(all: set<Path>, added: set<Path>): set<Path> {
    set p | p in added && IsOwner(all, p, None)
  }

  /**
   A whole installation: one bracket for each package, and at the end one for
   the files of no package if there are any.
   */
  ghost predicate Installed(log: seq<Bracket>, all: set<Path>, added: set<Path>, slashed: Leads, prefix: string, room: int,
                            manifests: Manifests)
  {
    && (forall i, j :: 0 <= i < j < |log| ==> log[i].owner != log[j].owner)
    && (forall i :: 0 <= i < |log| && log[i].owner.Some? ==>
          var r := log[i].owner.value;
          && r in all && IsPackage(all, r)
          && PackageBracket(log[i], Owned(all, r), r, PackageLead(slashed, r), prefix, room, manifests(prefix + Join(r, true))))
    && (forall i :: 0 <= i < |log| && log[i].owner == None ==> DefaultBracket(log[i], Unowned(all, added), slashed, prefix))
    && (forall r :: r in all && IsPackage(all, r) ==> exists i :: 0 <= i < |log| && log[i].owner == Some(r))
    && (Unowned(all, added) != {} ==> exists i :: 0 <= i < |log| && log[i].owner == None)
  }

  // -------------------------------------------------------------------- theorems

  /** A tag stands in the bracket of the owner of its path. */
  lemma TagOwner(log: seq<Bracket>, all: set<Path>, added: set<Path>, slashed: Leads, prefix: string, room: int,
                 manifests: Manifests, p: Path, i: int, j: int)
    requires Installed(log, all, added, slashed, prefix, room, manifests) && Tagged(log, p, i, j)
    ensures IsOwner(all, p, log[i].owner)
  {
    hide IsOwner, IsPackage, AllFit, Solved, Texts, Reaches;
    assert log[i].tags[j].path == p;
  }

  /** A path that is tagged in the bracket of its owner is tagged once. */
  lemma OnceIfTagged(log: seq<Bracket>, all: set<Path>, added: set<Path>, slashed: Leads, prefix: string, room: int,
                     manifests: Manifests, p: Path, i: int, j: int)
    requires Installed(log, all, added, slashed, prefix, room, manifests) && Tagged(log, p, i, j)
    ensures TaggedOnce(log, all, p)
  {
    hide IsOwner, IsPackage, AllFit, Solved, Texts, Reaches;
    TagOwner(log, all, added, slashed, prefix, room, manifests, p, i, j);
    forall i', j' | Tagged(log, p, i', j') ensures i' == i && j' == j {
      TagOwner(log, all, added, slashed, prefix, room, manifests, p, i', j');
      OneOwner(all, p, log[i].owner, log[i'].owner);
      assert i == i';
      assert Within(log[i].tags, if log[i].owner == None then Unowned(all, added) else Owned(all, log[i].owner.value));
    }
    assert OnlyTag(log, p, i, j);
  }

  /**
   All the files of a package are tagged, each once, exactly when their paths
   fit the buffer.
   */
  lemma WhollyTaggedIff(log: seq<Bracket>, all: set<Path>, added: set<Path>, slashed: Leads, prefix: string, room: int,
                        manifests: Manifests, r: Path)
    requires Installed(log, all, added, slashed, prefix, room, manifests) && r in all && IsPackage(all, r)
    ensures (forall p :: p in Owned(all, r) ==> TaggedOnce(log, all, p)) <==> AllFit(Owned(all, r), PackageLead(slashed, r), room)
  {
    hide IsPackage, AllFit, Solved, Texts, PackageLead;
    var i :| 0 <= i < |log| && log[i].owner == Some(r);
    var files := Owned(all, r);
    if Reaches(log[i].tags, files) {
      forall p | p in files ensures TaggedOnce(log, all, p) {
        var j :| 0 <= j < |log[i].tags| && log[i].tags[j].path == p;
        OnceIfTagged(log, all, added, slashed, prefix, room, manifests, p, i, j);
      }
    }
    if forall p :: p in files ==> TaggedOnce(log, all, p) {
      forall p | p in files ensures exists j :: 0 <= j < |log[i].tags| && log[i].tags[j].path == p {
        assert TaggedOnce(log, all, p);
        var i', j :| Tagged(log, p, i', j) && IsOwner(all, p, log[i'].owner) && OnlyTag(log, p, i', j);
        OneOwner(all, p, log[i'].owner, Some(r));
        assert i' == i;
      }
    }
  }

  /**
   Every added file is tagged exactly once, in the bracket of its nearest
   package, or in the default one if it has none, when the paths of its package
   fit.
   */
  lemma EveryFileOnce(log: seq<Bracket>, all: set<Path>, added: set<Path>, slashed: Leads, prefix: string, room: int,
                      manifests: Manifests, p: Path, owner: Option<Path>)
    requires Installed(log, all, added, slashed, prefix, room, manifests) && p in added && p in all && IsOwner(all, p, owner)
    requires owner.Some? ==> owner.value in all && AllFit(Owned(all, owner.value), PackageLead(slashed, owner.value), room)
    ensures TaggedOnce(log, all, p)
  {
    hide IsPackage, AllFit, Solved, Texts, PackageLead;
    if owner.Some? {
      WhollyTaggedIff(log, all, added, slashed, prefix, room, manifests, owner.value);
      assert p in Owned(all, owner.value);
    } else {
      assert p in Unowned(all, added);
      var i :| 0 <= i < |log| && log[i].owner == None;
      var j :| 0 <= j < |log[i].tags| && log[i].tags[j].path == p;
      OnceIfTagged(log, all, added, slashed, prefix, room, manifests, p, i, j);
    }
  }

  // ----------------------------------------------------------- a path too long

  function LongName(): string {
    seq(5000, i => 'a')
  }

  /** A package with one file whose name does not fit the buffer. */
  function LongTree(): set<Path> {
    {[], ["p"], ["p", "config.xml"], ["p", LongName()]}
  }

  /** An installation of that package that reports success leaves some of its files without tag. */
  lemma LongPathMissed(log: seq<Bracket>, added: set<Path>, slashed: Leads, manifests: Manifests)
    requires Installed(log, LongTree(), added, slashed, "", PATH_MAX, manifests)
    ensures !forall p :: p in Owned(LongTree(), ["p"]) ==> TaggedOnce(log, LongTree(), p)
  {
    hide Installed, TaggedOnce, Join;
    var all, r, long: Path := LongTree(), ["p"], ["p", LongName()];
    assert r + CONFIG == ["p", "config.xml"];
    WhollyTaggedIff(log, all, added, slashed, "", PATH_MAX, manifests, r);
    assert long[..2] == long && r <= long;
    assert |LongName()| == 5000 && |(long + MANIFEST)| == 4 && |(long + CONFIG)| == 3;
    assert long in Owned(all, r);
    LongJoin(PackageLead(slashed, r));
  }

  lemma LongJoin(lead: bool)
    ensures |Join(["p", LongName()], lead)| >= PATH_MAX
  {
  }

  /** A package is where there is one of the two files that describe one. */
  lemma PackageMarks(all: set<Path>, p: Path)
    ensures IsPackage(all, p) <==> p + [".rpconfig", "manifest.yml"] in all || p + ["config.xml"] in all
  {
  }
}
