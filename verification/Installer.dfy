/**
 Installation of the packages found in a tree of files (src/afmpkg/afmpkg.c,
 `afmpkg_process`): package roots are detected in post-order, processed and
 destroyed one by one, and the remaining files get the default treatment.
 */
module Installer {
  import opened Brackets
  import CStrings
  import FileTypes
  import opened Options
  import opened PackageTypes
  import PathOrder
  import PathReach
  import PathText
  import opened PathTree
  import opened PathWalk
  import opened Paths
  import opened TextLines

  // ---------------------------------------------------------------------- texts

  /** Do the texts of a package start with a slash? */
  ghost predicate Lead(pack: Node) {
    |pack.path| > 1 || pack.slash
  }

  lemma JoinStep(p: Path, name: string, lead: bool)
    ensures Join(p + [name], lead) == Join(p, lead) + (if p != [] || lead then "/" else "") + name
  {
    assert (p + [name])[..|p|] == p;
  }

  lemma JoinLead(p: Path)
    requires p != []
    ensures Join(p, true) == "/" + Join(p, false)
    decreases |p|
  {
    var q, name := p[..|p| - 1], p[|p| - 1];
    assert p == q + [name];
    JoinStep(q, name, true);
    JoinStep(q, name, false);
    if q != [] { JoinLead(q); }
  }

  lemma SpellStep(t: Tree, n: Node, m: Node)
    requires t.Valid() && n in t.nodes && m in Below(t, n)
    ensures PathText.Spell(t, "", false, n, n) == PathText.Extend("", n)
    ensures m != n ==>
              && m != t.root && m.parent != null && m.parent in Below(t, n) && |m.parent.path| < |m.path|
              && PathText.Spell(t, "", false, n, m) == PathText.Extend(PathText.Spell(t, "", false, n, m.parent), m)
  {
    hide Tree.Valid;
    if m != n {
      PathText.Up(t, n, m);
    }
  }

  /** What a walk from a named entry spells, after the text of its parent, is the whole path. */
  lemma {:induction false} SpellWhole(t: Tree, n: Node, m: Node)
    requires t.Valid() && n in t.nodes && n != t.root && m in Below(t, n)
    ensures n.parent != null
    ensures Join(n.parent.path, true) + PathText.Spell(t, "", false, n, m) == Join(m.path, Lead(n))
    ensures PathText.Spell(t, "", false, n, m) != ""
    decreases |m.path|
  {
    hide Tree.Valid, Join, PathText.Spell;
    PathText.Facts(t, n);
    SpellStep(t, n, m);
    var above := Join(n.parent.path, true);
    if m == n {
      JoinStep(n.parent.path, n.name, Lead(n));
      EmptyJoin();
      assert above + ((if n.slash then "/" else "") + n.name) == above + (if n.slash then "/" else "") + n.name;
    } else {
      SpellWhole(t, n, m.parent);
      PathText.Facts(t, m);
      JoinStep(m.parent.path, m.name, Lead(n));
      var s := PathText.Spell(t, "", false, n, m.parent);
      assert above + (s + "/" + m.name) == above + s + "/" + m.name;
    }
  }

  lemma EmptyJoin()
    ensures Join([], true) == "" && Join([], false) == ""
  {
  }

  /** The text of an entry of a package is its path exactly when the package keeps its leading slash. */
  lemma PackageTextExact(t: Tree, n: Node, m: Node)
    requires t.Valid() && n in t.nodes && n != t.root && m in Below(t, n)
    ensures n.parent != null
    ensures Join(n.parent.path, true) + PathText.Spell(t, "", false, n, m) == Join(m.path, true) <==> |n.path| > 1 || n.slash
  {
    hide Tree.Valid, Join;
    PathText.Facts(t, n);
    SpellWhole(t, n, m);
    JoinLead(m.path);
  }

  /** A package "p" added without slash: its path is /p, and "p" is written. */
  lemma RelativePackage(t: Tree, n: Node)
    requires t.Valid() && n in t.nodes && n.path == ["p"] && !n.slash
    ensures PathText.Spell(t, "", false, n, n) == "p" && Join(n.path, true) == "/p"
  {
    assert t.Linked(n) && t.Linked(t.root);
    assert n.parent.path == n.path[..0] && n.name == n.path[0];
    JoinStep([], "p", true);
    EmptyJoin();
    assert [] + ["p"] == ["p"];
  }

  /** The text of an entry of no package is its path exactly when it was added with a leading slash. */
  lemma {:induction false} DefaultText(t: Tree, m: Node)
    requires t.Valid() && m in t.nodes && m != t.root
    ensures t.root in t.nodes && t.root.path <= m.path
    ensures PathText.Spell(t, "", false, t.root, m) == Join(m.path, PathText.Absolute(t, m))
    ensures PathText.Spell(t, "", false, t.root, m) != ""
    ensures PathText.Spell(t, "", false, t.root, m) == Join(m.path, true) <==> PathText.Absolute(t, m)
    decreases |m.path|
  {
    assert t.Linked(t.root);
    hide Tree.Valid, Join;
    PathText.Facts(t, m);
    PathText.Up(t, t.root, m);
    JoinStep(m.parent.path, m.name, PathText.Absolute(t, m));
    EmptyJoin();
    JoinLead(m.path);
    if m.parent == t.root {
      assert PathText.Spell(t, "", false, t.root, t.root) == "";
    } else {
      DefaultText(t, m.parent);
      PathText.Facts(t, m.parent);
      PathText.SamePath(t, m.parent, t.root);
    }
  }

  // ------------------------------------------------------------------ operations

  type Rc = x: int | x <= 0

  /** The operations given by the caller, with what they were told. */
  class Operations {
    const answer: nat -> Rc
    var asked: nat
    ghost var log: seq<Bracket>
    ghost var open: Option<Bracket>

    constructor (answer: nat -> Rc)
      ensures log == [] && open == None && this.answer == answer
    {
      this.answer := answer;
      asked := 0;
      log := [];
      open := None;
    }

    /** Nothing fails. */
    ghost predicate Willing() {
      forall k :: answer(k) == 0
    }

    /** Any step whose outcome is not decided here. */
    method Ask() returns (rc: Rc)
      modifies this`asked
      ensures Willing() ==> rc == 0
    {
      rc := answer(asked);
      asked := asked + 1;
    }

    method Begin(ghost owner: Option<Path>) returns (rc: Rc)
      requires open == None
      modifies this
      ensures log == old(log) && open == Some(Bracket(owner, [])) && (Willing() ==> rc == 0)
    {
      rc := Ask();
      open := Some(Bracket(owner, []));
    }

    /** Tags the file of a text, which is that of the path `p`. */
    method TagFile(text: string, ty: FileTypes.PathType, ghost p: Path) returns (rc: Rc)
      requires open.Some?
      modifies this
      ensures log == old(log) && (Willing() ==> rc == 0)
      ensures open == Some(old(open).value.(tags := old(open).value.tags + [Tag(p, text, ty)]))
    {
      rc := Ask();
      open := Some(open.value.(tags := open.value.tags + [Tag(p, text, ty)]));
    }

    method End(status: Rc) returns (rc: Rc)
      requires open.Some?
      modifies this
      ensures log == old(log) + [old(open).value] && open == None
      ensures if status < 0 then rc < 0 else Willing() ==> rc == 0
    {
      rc := status;
      if status == 0 {
        rc := Ask();
      }
      log := log + [open.value];
      open := None;
    }
  }

  /** The tag of an entry: its type, or that of configuration files if it has none. */
  function TagOf(types: FileTypes.Types, n: Node): FileTypes.PathType {
    if FileTypes.TypeOf(types, n) == FileTypes.Unset then FileTypes.Conf else FileTypes.TypeOf(types, n)
  }

  /** The tags of the calls of a walk. */
  ghost function TagsOf(log: seq<PathText.Visit>, above: string, types: FileTypes.Types): (r: seq<Tag>)
    ensures |r| == |log|
  {
    seq(|log|, i requires 0 <= i < |log| => Tag(log[i].node.path, above + log[i].text, TagOf(types, log[i].node)))
  }

  /** Tags every entry of the walk, with the type computed for it. */
  method TagAll(log: seq<PathText.Visit>, above: string, types: FileTypes.Types, ops: Operations) returns (rc: Rc)
    requires ops.open.Some?
    modifies ops
    ensures ops.log == old(ops.log) && (ops.Willing() ==> rc == 0)
    ensures ops.open == Some(old(ops.open).value.(tags := old(ops.open).value.tags + TagsOf(log, above, types)))
  {
    hide Operations.Willing;
    rc := 0;
    ghost var b := ops.open.value;
    ghost var all := TagsOf(log, above, types);
    assert b.tags + all[..0] == b.tags;
    for k := 0 to |log|
      invariant ops.log == old(ops.log) && (ops.Willing() ==> rc == 0)
      invariant ops.open == Some(b.(tags := b.tags + all[..k]))
    {
      var ty := FileTypes.TypeOf(types, log[k].node);
      if ty == FileTypes.Unset {
        ty := FileTypes.Conf;
      }
      var r := ops.TagFile(above + log[k].text, ty, log[k].node.path);
      if r < 0 && rc >= 0 {
        rc := r;
      }
      assert b.tags + all[..k + 1] == b.tags + all[..k] + [all[k]];
    }
    assert all[..|log|] == all;
  }

  // ------------------------------------------------------------ tags of a package

  /** A stopped walk tags less than all. */
  lemma WalkTags(t: Tree, pack: Node, log: seq<PathText.Visit>, ok: bool, size: nat, above: string, types: FileTypes.Types)
    requires t.Valid() && pack in t.nodes && PathText.Walked(ok, log) == PathText.Trail(t, "", pack, false, false, size)
    ensures Within(TagsOf(log, above, types), FilesOf(t, pack))
    ensures Reaches(TagsOf(log, above, types), FilesOf(t, pack)) <==> ok
  {
    hide Tree.Valid, Order, PathText.Trail, Ordered;
    var all, some, tags := Order(t, pack, false, false), PathText.Nodes(log), TagsOf(log, above, types);
    PathText.TrailLeads(t, "", pack, false, false, size);
    OrderTraverses(t, pack, false, false);
    assert forall i :: 0 <= i < |log| ==> some[i] == all[i] && all[i] in all && tags[i].path == all[i].path;
    forall i, j | 0 <= i < j < |tags| ensures tags[i].path != tags[j].path {
      PathText.SamePath(t, all[i], all[j]);
    }
    if ok {
      forall p | p in FilesOf(t, pack) ensures exists i :: 0 <= i < |tags| && tags[i].path == p {
        var n := NodeOfFile(t, pack, p);
        assert n in all;
        var i :| 0 <= i < |all| && all[i] == n;
      }
    } else {
      PathText.TrailMisses(t, "", pack, false, size);
      var last := all[|all| - 1];
      assert last in all && last.path in FilesOf(t, pack);
      forall i | 0 <= i < |tags| ensures tags[i].path != last.path {
        PathText.SamePath(t, all[i], last);
      }
    }
  }

  /** The buffer holds the root prefix and then the path of the package. */
  ghost predicate AtPackage(a: seq<char>, prefix: string, pack: Node, offPack: nat) {
    offPack < |a| && a[..offPack] == prefix + Join(pack.path, true)
  }

  /** Where the walk of a package starts to write: just before its own name. */
  lemma BeforeName(a: seq<char>, prefix: string, t: Tree, pack: Node, offPack: nat)
    requires t.Valid() && pack in t.nodes && pack != t.root && AtPackage(a, prefix, pack, offPack)
    ensures pack.parent != null && pack.name != "" && pack.name[0] != '/' && |prefix| + |pack.name| < offPack
    ensures var off := offPack - |pack.name| - 1;
            a[..off] == prefix + Join(pack.parent.path, true) && a[off..offPack] == "/" + pack.name
  {
    hide Tree.Valid, Join;
    PathText.Facts(t, pack);
    JoinStep(pack.parent.path, pack.name, true);
    var above := prefix + Join(pack.parent.path, true);
    assert a[..offPack] == above + ("/" + pack.name);
    assert a[..|above|] == a[..offPack][..|above|] == above;
    assert a[|above|..offPack] == a[..offPack][|above|..];
  }

  /** The guard of the walk over the content of a package, for one entry. */
  lemma ContentPasses(t: Tree, pack: Node, prefix: string, offPack: nat, length: nat, n: Node)
    requires t.Valid() && pack in t.nodes && pack != t.root && |prefix| + |Join(pack.path, true)| == offPack < length
    requires n in Below(t, pack) && n != pack
    ensures PathReach.Passes(t, "", true, pack, n, length - offPack) <==> |Join(n.path, true)| < length - |prefix|
  {
    hide Tree.Valid, Join, PathText.Spell;
    PathText.RoomForText(t, "", true, pack, n, length - offPack);
    SpellInside(t, pack, n);
    JoinSplit(pack.path, n.path);
    PathText.Up(t, pack, n);
    PathText.Facts(t, n);
    PathText.Facts(t, pack);
    BelowPath(t, pack, n);
    PathText.SamePath(t, pack, n);
    assert |n.path| > |pack.path| >= 1;
  }

  /** The content that the default pass reaches is sound exactly when it is in the order of the walk. */
  lemma SoundOrder(ty: FileTypes.Typing, m: Manifest, prefix: string, offPack: nat, length: nat)
    requires ty.Valid() && ty.pack != ty.t.root && |prefix| + |Join(ty.pack.path, true)| == offPack < length
    ensures ty.Sound(m.stat, length - offPack) <==> SoundAlong(Content(ty.t, ty.pack), ty.pack.path, length - |prefix|, m)
  {
    var t, pack, room := ty.t, ty.pack, length - offPack;
    hide Tree.Valid, Join, OrderKids, PathText.TrailKids, PathText.Spell, FileTypes.Typing.Reached;
    var all, w := OrderKids(t, pack, |pack.children|, true, false), PathText.TrailKids(t, "", pack, |pack.children|, true, false, room);
    WalkOfContent(t, pack, prefix, offPack, length);
    ReachedAre(ty, w, room);
    var order := Content(t, pack);
    if ty.Sound(m.stat, room) {
      forall i | 0 <= i < |order| && FitsUpTo(order, i, length - |prefix|)
        ensures m.stat(Join(order[i][|pack.path|..], true)) in {FileTypes.Regular, FileTypes.Directory}
      {
        assert w.log[i].node == all[i];
        assert all[i] in ty.Reached(room);
      }
    }
    if SoundAlong(order, pack.path, length - |prefix|, m) {
      forall n | n in ty.Reached(room) && n in Below(t, pack) && n != pack
        ensures m.stat(PathText.Spell(t, "", true, pack, n)) in {FileTypes.Regular, FileTypes.Directory}
      {
        var i :| 0 <= i < |w.log| && w.log[i].node == n;
        assert all[i] == n && order[i] == n.path && FitsUpTo(order, i, length - |prefix|);
      }
    }
  }

  /** The walk over the content of a package tells what comes before the first path that does not fit. */
  lemma WalkOfContent(t: Tree, pack: Node, prefix: string, offPack: nat, length: nat)
    requires t.Valid() && pack in t.nodes && pack != t.root && |prefix| + |Join(pack.path, true)| == offPack < length
    ensures var all := OrderKids(t, pack, |pack.children|, true, false);
            var w := PathText.TrailKids(t, "", pack, |pack.children|, true, false, length - offPack);
            var order := Content(t, pack);
            && |w.log| <= |all| == |order|
            && forall i :: 0 <= i < |all| ==>
                 && all[i] in Below(t, pack) && all[i] != pack && order[i] == all[i].path && pack.path <= order[i]
                 && PathText.Spell(t, "", true, pack, all[i]) == Join(order[i][|pack.path|..], true)
                 && (i < |w.log| ==> w.log[i].node == all[i])
                 && (i < |w.log| <==> FitsUpTo(order, i, length - |prefix|))
  {
    var room := length - offPack;
    hide Tree.Valid, Join, OrderKids, PathText.TrailKids, PathReach.Passes, PathText.Spell;
    var all, w := OrderKids(t, pack, |pack.children|, true, false), PathText.TrailKids(t, "", pack, |pack.children|, true, false, room);
    PathReach.TrailKidsStopPre(t, "", pack, |pack.children|, room);
    PathText.TrailKidsLead(t, "", pack, |pack.children|, true, false, room);
    assert forall i :: 0 <= i < |w.log| ==> w.log[i].node == PathText.Nodes(w.log)[i] == all[i];
    forall i | 0 <= i < |all|
      ensures PathReach.Passes(t, "", true, pack, all[i], room) <==> |Join(all[i].path, true)| < length - |prefix|
      ensures pack.path <= all[i].path && PathText.Spell(t, "", true, pack, all[i]) == Join(all[i].path[|pack.path|..], true)
    {
      ContentPasses(t, pack, prefix, offPack, length, all[i]);
      SpellInside(t, pack, all[i]);
      BelowPath(t, pack, all[i]);
    }
    FirstRefused(Content(t, pack), |w.log|, length - |prefix|);
  }

  /** What is told comes before the first path that does not fit. */
  lemma FirstRefused(order: seq<Path>, n: nat, room: int)
    requires n <= |order| && forall i :: 0 <= i < n ==> |Join(order[i], true)| < room
    requires n < |order| ==> |Join(order[n], true)| >= room
    ensures forall i :: 0 <= i < |order| ==> (i < n <==> FitsUpTo(order, i, room))
  {
    hide Join;
  }

  lemma ReachedAre(ty: FileTypes.Typing, w: PathText.Walked, room: nat)
    requires ty.Valid() && w == PathText.TrailKids(ty.t, "", ty.pack, |ty.pack.children|, true, false, room)
    ensures forall n :: n in ty.Reached(room) && n != ty.pack ==> exists i :: 0 <= i < |w.log| && w.log[i].node == n
    ensures forall i :: 0 <= i < |w.log| && w.log[i].node in ty.t.nodes ==> w.log[i].node in ty.Reached(room)
  {
    hide Tree.Valid, PathText.TrailKids;
    forall n | n in ty.Reached(room) && n != ty.pack ensures exists i :: 0 <= i < |w.log| && w.log[i].node == n {
      var i :| 0 <= i < |w.log| && PathText.Nodes(w.log)[i] == n;
    }
    forall i | 0 <= i < |w.log| && w.log[i].node in ty.t.nodes ensures w.log[i].node in ty.Reached(room) {
      assert PathText.Nodes(w.log)[i] == w.log[i].node;
    }
  }

  /** Nothing of a package is refused exactly when the texts fit, those of the walk over its content with a slash. */
  lemma PackageFits(t: Tree, pack: Node, prefix: string, offPack: nat, length: nat)
    requires t.Valid() && pack in t.nodes && pack != t.root && |prefix| + |Join(pack.path, true)| == offPack < length
    ensures |pack.name| < offPack
    ensures PathText.Fits(t, "", false, pack, length - (offPack - |pack.name| - 1)) <==>
            AllFit(FilesOf(t, pack), Lead(pack), length - |prefix|)
    ensures PathText.Fits(t, "", true, pack, length - offPack) <==> AllFit(FilesOf(t, pack), true, length - |prefix|)
  {
    hide Tree.Valid, Join, PathText.Spell;
    PathText.Facts(t, pack);
    JoinStep(pack.parent.path, pack.name, true);
    SelfBelow(t, pack);
    JoinLead(pack.path);
    var off := offPack - |pack.name| - 1;
    forall n | n in Below(t, pack)
      ensures PathText.Room(PathText.LengthBefore(t, "", false, pack, n), n, length - off) <==> |prefix| + |Join(n.path, Lead(pack))| < length
      ensures n != pack ==>
                (PathText.Room(PathText.LengthBefore(t, "", true, pack, n), n, length - offPack) <==> |prefix| + |Join(n.path, true)| < length)
    {
      SpellWhole(t, pack, n);
      if n != pack {
        PathText.RoomForText(t, "", false, pack, n, length - off);
        PathText.RoomForText(t, "", true, pack, n, length - offPack);
        SpellInside(t, pack, n);
        JoinSplit(pack.path, n.path);
        PathText.Up(t, pack, n);
        PathText.Facts(t, n);
      }
    }
    FilesFit(t, pack, Lead(pack), length - |prefix|);
    FilesFit(t, pack, true, length - |prefix|);
  }

  lemma FilesFit(t: Tree, pack: Node, lead: bool, room: int)
    ensures AllFit(FilesOf(t, pack), lead, room) <==> forall n :: n in Below(t, pack) ==> |Join(n.path, lead)| < room
  {
    hide Join;
    if AllFit(FilesOf(t, pack), lead, room) {
      forall n | n in Below(t, pack) ensures |Join(n.path, lead)| < room {
        assert n.path in FilesOf(t, pack);
      }
    }
  }

  lemma {:induction false} JoinSplit(p: Path, q: Path)
    requires p <= q
    ensures Join(q, true) == Join(p, true) + Join(q[|p|..], true)
    decreases |q|
  {
    hide Join;
    if |q| == |p| {
      assert q == p && q[|p|..] == [];
      EmptyJoin();
      assert Join(p, true) + "" == Join(p, true);
    } else {
      var init, name := q[..|q| - 1], q[|q| - 1];
      assert q == init + [name] && q[|p|..] == init[|p|..] + [name] && p <= init;
      JoinSplit(p, init);
      JoinStep(init, name, true);
      JoinStep(init[|p|..], name, true);
      var a, b := Join(p, true), Join(init[|p|..], true);
      Regroup(a, b, name);
    }
  }

  lemma Regroup(a: string, b: string, name: string)
    ensures a + b + "/" + name == a + (b + "/" + name)
  {
  }

  lemma WalkTexts(t: Tree, pack: Node, log: seq<PathText.Visit>, prefix: string, above: string, types: FileTypes.Types)
    requires t.Valid() && pack in t.nodes && pack != t.root && PathText.Spelled(t, "", false, pack, log)
    requires pack.parent != null && above == prefix + Join(pack.parent.path, true)
    ensures Texts(TagsOf(log, above, types), prefix, Lead(pack))
  {
    hide Tree.Valid, Join, PathText.Spell;
    var tags := TagsOf(log, above, types);
    forall i | 0 <= i < |tags|
      ensures tags[i].text == prefix + Join(tags[i].path, Lead(pack))
    {
      SpellWhole(t, pack, log[i].node);
      assert prefix + Join(pack.parent.path, true) + log[i].text == prefix + (Join(pack.parent.path, true) + log[i].text);
    }
  }

  /** What the walk leaves of the path of the package in the buffer. */
  lemma PathKept(was: seq<char>, now: seq<char>, pack: Node, off: nat, offPack: nat)
    requires |was| == |now| && off + |pack.name| + 1 == offPack <= |now| && pack.name != "" && pack.name[0] != '/'
    requires now[..off] == was[..off] && was[off..offPack] == "/" + pack.name
    requires var text := PathText.Extend("", pack); off + |text| <= |now| && now[off..off + |text|] == text
    ensures now[..offPack] == was[..offPack] <==> pack.slash
  {
    var text := PathText.Extend("", pack);
    assert text == (if pack.slash then "/" else "") + pack.name;
    if pack.slash {
      assert now[..offPack] == now[..off] + now[off..offPack];
      assert was[..offPack] == was[..off] + was[off..offPack];
    } else {
      assert now[off] == now[off..off + |text|][0] == pack.name[0];
      assert was[off] == was[off..offPack][0] == '/';
      assert now[..offPack][off] != was[..offPack][off];
    }
  }

  /**
   Tags the entries of a package, in post-order. All of them are tagged exactly
   when their texts fit. The path of the package in the buffer stays as it was
   exactly when the package keeps its leading slash.
   */
  method TagPackage(t: Tree, pack: Node, a: array<char>, offPack: nat, types: FileTypes.Types, ops: Operations, ghost prefix: string)
    returns (rc: Rc)
    requires t.Valid() && pack in t.nodes && pack != t.root
    requires |prefix| <= a.Length && AtPackage(a[..], prefix, pack, offPack)
    requires ops.open == Some(Bracket(Some(pack.path), []))
    modifies a, ops
    ensures a[..|prefix|] == old(a[..|prefix|])
    ensures a[..offPack] == old(a[..offPack]) <==> Lead(pack)
    ensures ops.Willing() ==> rc == 0
    ensures ops.log == old(ops.log) && ops.open.Some? && ops.open.value.owner == Some(pack.path)
    ensures var tags := ops.open.value.tags;
            && Within(tags, FilesOf(t, pack)) && Texts(tags, prefix, Lead(pack))
            && (Reaches(tags, FilesOf(t, pack)) <==> AllFit(FilesOf(t, pack), Lead(pack), a.Length - |prefix|))
            && Typed(tags, t, types)
  {
    hide Tree.Valid, Join, PathText.Fits, PathText.Spelled, PathText.Trail, Within, Texts, Reaches, AllFit, Typed, PathText.Extend;
    BeforeName(a[..], prefix, t, pack, offPack);
    PackageFits(t, pack, prefix, offPack, a.Length);
    var off: nat := offPack - |pack.name| - 1;
    ghost var was := a[..];
    assert a[off..off + 0] == "";
    var walked, log := PathText.DoForEach(t, pack, a, off, a.Length - off, 0, false, false, false);
    assert a[..off] == was[..off];
    assert a[..|prefix|] == a[..off][..|prefix|];
    PathText.Facts(t, pack);
    PathKept(was, a[..], pack, off, offPack);
    WalkTags(t, pack, log, walked == 0, a.Length - off, was[..off], types);
    WalkTexts(t, pack, log, prefix, was[..off], types);
    WalkTyped(t, pack, log, was[..off], types);
    rc := TagAll(log, a[..off], types, ops);
    assert [] + TagsOf(log, was[..off], types) == TagsOf(log, was[..off], types);
  }

  /** Every path tagged got the tag of its entry. */
  ghost predicate Typed(tags: seq<Tag>, t: Tree, types: FileTypes.Types)
    reads t
  {
    forall i, n :: 0 <= i < |tags| && n in t.nodes && n.path == tags[i].path ==> tags[i].kind == TagOf(types, n)
  }

  lemma WalkTyped(t: Tree, pack: Node, log: seq<PathText.Visit>, above: string, types: FileTypes.Types)
    requires t.Valid() && pack in t.nodes && PathText.Spelled(t, "", false, pack, log)
    ensures Typed(TagsOf(log, above, types), t, types)
  {
    hide Tree.Valid, PathText.Spell;
    var tags := TagsOf(log, above, types);
    forall i, n | 0 <= i < |tags| && n in t.nodes && n.path == tags[i].path ensures tags[i].kind == TagOf(types, n) {
      PathText.SamePath(t, n, log[i].node);
    }
  }

  /** The types of the files of a package are set and solve the equations. */
  ghost predicate Solving(t: Tree, pack: Node, types: FileTypes.Types, m: Manifest)
    requires t.Valid()
    reads t, t.nodes
  {
    && (forall n :: n in Below(t, pack) ==> FileTypes.TypeOf(types, n) != FileTypes.Unset)
    && exists own, d :: Solution(FilesOf(t, pack), pack.path, m, own, d, ByPath(t, pack, types))
  }

  /** Tags that follow such types. */
  lemma TagsSolve(t: Tree, pack: Node, tags: seq<Tag>, types: FileTypes.Types, m: Manifest)
    requires t.Valid() && pack in t.nodes && Typed(tags, t, types) && Within(tags, FilesOf(t, pack)) && Solving(t, pack, types, m)
    ensures Solved(tags, FilesOf(t, pack), pack.path, m)
  {
    hide Tree.Valid, Solution, ByPath;
    var kinds := ByPath(t, pack, types);
    forall i | 0 <= i < |tags| ensures tags[i].kind == KindAt(kinds, tags[i].path) {
      var n := NodeOfFile(t, pack, tags[i].path);
      KindOfNode(t, pack, types, n);
    }
  }

  /** What is put after the path of a package for one of its plugs. */
  function PlugPart(dir: string, room: nat): string
    requires room > 0
  {
    var part := "/" + CStrings.CStr(dir, 0);
    if |part| < room then part else part[..room - 1]
  }

  /** The path of a plug is that of the package with its directory after it exactly when the former is still there. */
  method PlugText(a: array<char>, offPack: nat, dir: string, ghost path: string) returns (text: string)
    requires |path| == offPack < a.Length
    modifies a
    ensures a[..offPack] == old(a[..offPack])
    ensures CStrings.NUL !in path ==> (text == path + PlugPart(dir, a.Length - offPack) <==> a[..offPack] == path)
  {
    var part := PlugPart(dir, a.Length - offPack);
    PlugPartClean(dir, a.Length - offPack);
    ghost var was, q := a[..], offPack + |part|;
    CopyIn(a, offPack, part + [CStrings.NUL]);
    ghost var now := a[..];
    assert now[..offPack] == was[..offPack] && now[offPack..q] == part && now[q] == CStrings.NUL;
    text := CStrings.CStr(a[..], 0);
    if now[..offPack] == path && CStrings.NUL !in path {
      assert now[..q] == path + part;
      forall i | 0 <= i < q ensures now[i] != CStrings.NUL { assert now[i] == (path + part)[i] && (path + part)[i] in path + part; }
      CStrings.CStrIs(now, 0, q);
      assert now[0..q] == now[..q];
    } else {
      CStrings.CStrSlice(now, 0);
      assert |text| >= offPack ==> now[..offPack] == text[..offPack];
    }
  }

  lemma PlugPartClean(dir: string, room: nat)
    requires room > 0
    ensures |PlugPart(dir, room)| < room && CStrings.NUL !in PlugPart(dir, room)
  {
    CStrings.CStrSlice(dir, 0);
  }

  /** The plugs told are the right ones, under the path of the package, exactly when it keeps its leading slash. */
  ghost predicate Plugged(texts: seq<string>, plugs: seq<Option<string>>, path: string, room: nat, kept: bool)
    requires room > 0
  {
    && |texts| == |plugs|
    && forall i :: 0 <= i < |plugs| ==> plugs[i].Some? && (texts[i] == path + PlugPart(plugs[i].value, room) <==> kept)
  }

  /** Tells the plugs of the package. */
  method SetPlugs(a: array<char>, offPack: nat, plugs: seq<Option<string>>, ops: Operations, ghost path: string)
    returns (rc: Rc, texts: seq<string>)
    requires |path| == offPack < a.Length && forall i :: 0 <= i < |plugs| ==> plugs[i].Some?
    modifies a, ops`asked
    ensures a[..offPack] == old(a[..offPack]) && (ops.Willing() ==> rc == 0)
    ensures CStrings.NUL !in path ==> Plugged(texts, plugs, path, a.Length - offPack, a[..offPack] == path)
  {
    hide Operations.Willing, PlugPart;
    rc, texts := 0, [];
    for k := 0 to |plugs|
      invariant a[..offPack] == old(a[..offPack]) && (ops.Willing() ==> rc == 0)
      invariant CStrings.NUL !in path ==> Plugged(texts, plugs[..k], path, a.Length - offPack, a[..offPack] == path)
    {
      var text := PlugText(a, offPack, plugs[k].value, path);
      texts := texts + [text];
      var r := ops.Ask();
      if r < 0 && rc >= 0 {
        rc := r;
      }
    }
    assert plugs[..|plugs|] == plugs;
  }

  /** What follows the tagging of a package: permissions, plugs and units. */
  method Conclude(a: array<char>, offPack: nat, plugs: seq<Option<string>>, ops: Operations, ghost path: string)
    returns (rc: Rc, texts: seq<string>)
    requires |path| == offPack < a.Length && forall i :: 0 <= i < |plugs| ==> plugs[i].Some?
    modifies a, ops`asked
    ensures a[..offPack] == old(a[..offPack]) && (ops.Willing() ==> rc == 0)
    ensures rc == 0 && CStrings.NUL !in path ==> Plugged(texts, plugs, path, a.Length - offPack, a[..offPack] == path)
  {
    hide Operations.Willing, Plugged;
    texts := [];
    rc := ops.Ask();
    if rc >= 0 {
      rc, texts := SetPlugs(a, offPack, plugs, ops, path);
      if rc >= 0 {
        rc := ops.Ask();
      }
    }
  }

  /** The name of every plug is given. */
  lemma PlugsGiven(ty: FileTypes.Typing, m: Manifest)
    requires ty.Fulfilled(m.plugs, m.bindings, m.props, m.targets)
    ensures forall i :: 0 <= i < |m.plugs| ==> m.plugs[i].Some?
  {
  }

  /** What precedes the tagging of a package: permissions, content, the types of its files, executables. */
  method Prepare(t: Tree, pack: Node, a: array<char>, offPack: nat, m: Manifest, ops: Operations, ghost prefix: string)
    returns (rc: Rc, types: FileTypes.Types)
    requires t.Valid() && pack in t.nodes && pack != t.root && |prefix| + |Join(pack.path, true)| == offPack < a.Length
    modifies a, ops`asked
    ensures a[..offPack] == old(a[..offPack])
    ensures rc == 0 ==> forall i :: 0 <= i < |m.plugs| ==> m.plugs[i].Some?
    ensures rc == 0 && PathText.Fits(t, "", true, pack, a.Length - offPack) ==> Solving(t, pack, types, m)
    ensures ops.Willing() ==>
              (rc == 0 <==> Installable(FilesOf(t, pack), pack.path, Content(t, pack), a.Length - |prefix|, m))
    ensures rc == 0 ==> Installable(FilesOf(t, pack), pack.path, Content(t, pack), a.Length - |prefix|, m)
  {
    hide Tree.Valid, FileTypes.Typing.Dirs, FileTypes.Final, PathText.Fits, FileTypes.Inherited, FileTypes.Typing.Reached;
    hide FileTypes.Typing.Declared, FileTypes.Typing.Respected, FileTypes.Typing.DefaultsUpTo;
    hide FileTypes.Typing.Fulfilled, FileTypes.Typing.Sound, Operations.Willing, Solution, ByPath, FilesOf;
    hide Acceptable, SoundAlong, Content, Join;
    types := map[];
    rc := ops.Ask();
    if rc < 0 {
      return;
    }
    var typing := new FileTypes.Typing(t, pack);
    ghost var own, d;
    own, d := typing.Compute(m.plugs, m.bindings, m.props, m.targets, a, offPack, m.stat);
    types := typing.types;
    AcceptableIff(typing, m);
    SoundOrder(typing, m, prefix, offPack, a.Length);
    if typing.rc < 0 {
      rc := typing.rc;
      return;
    }
    PlugsGiven(typing, m);
    typing.Inside();
    if PathText.Fits(t, "", true, pack, a.Length - offPack) {
      PassesSolve(typing, own, d, types, m);
    }
    rc := ops.Ask();
  }

  /** Installation of one package between `begin` and `end`. */
  method InstallPackage(t: Tree, pack: Node, a: array<char>, offPack: nat, m: Manifest, ops: Operations, ghost prefix: string)
    returns (rc: Rc, plugs: seq<string>)
    requires t.Valid() && pack in t.nodes && pack != t.root
    requires |prefix| <= a.Length && AtPackage(a[..], prefix, pack, offPack)
    requires ops.open == Some(Bracket(Some(pack.path), []))
    modifies a, ops
    ensures a[..|prefix|] == old(a[..|prefix|])
    ensures Lead(pack) ==> a[..offPack] == old(a[..offPack])
    ensures rc == 0 && !Lead(pack) ==> a[..offPack] != old(a[..offPack])
    ensures rc == 0 && CStrings.NUL !in prefix + Join(pack.path, true) ==>
              Plugged(plugs, m.plugs, prefix + Join(pack.path, true), a.Length - offPack, Lead(pack))
    ensures ops.log == old(ops.log) && ops.open.Some?
    ensures rc == 0 ==> PackageBracket(ops.open.value, FilesOf(t, pack), pack.path, Lead(pack), prefix, a.Length - |prefix|, m)
    ensures ops.Willing() ==>
              (rc == 0 <==> Installable(FilesOf(t, pack), pack.path, Content(t, pack), a.Length - |prefix|, m))
    ensures rc == 0 ==> Installable(FilesOf(t, pack), pack.path, Content(t, pack), a.Length - |prefix|, m)
  {
    hide Tree.Valid, Join, PathText.Fits, Operations.Willing, Installable, Plugged, Solving, Content;
    hide Within, Texts, Reaches, AllFit, Typed, Solved, FilesOf;
    ghost var was := a[..offPack];
    assert was[..|prefix|] == a[..|prefix|];
    plugs := [];
    var types;
    rc, types := Prepare(t, pack, a, offPack, m, ops, prefix);
    assert a[..|prefix|] == a[..offPack][..|prefix|];
    if rc < 0 {
      return;
    }
    PackageFits(t, pack, prefix, offPack, a.Length);
    rc := TagPackage(t, pack, a, offPack, types, ops, prefix);
    if rc < 0 {
      return;
    }
    if AllFit(FilesOf(t, pack), true, a.Length - |prefix|) {
      TagsSolve(t, pack, ops.open.value.tags, types, m);
    }
    ghost var tagged := a[..offPack];
    rc, plugs := Conclude(a, offPack, m.plugs, ops, was);
    assert a[..|prefix|] == a[..offPack][..|prefix|] == tagged[..|prefix|];
  }

  /** One package root: its manifest, its bracket, its tags. */
  method ProcessPackage(t: Tree, pack: Node, a: array<char>, offRoot: nat, manifests: Manifests, ops: Operations) returns (rc: Rc)
    requires t.Valid() && pack in t.nodes && pack != t.root && ops.open == None
    requires offRoot <= a.Length && |Join(pack.path, true)| < a.Length - offRoot
    modifies a, ops
    ensures a[..offRoot] == old(a[..offRoot])
    ensures ops.open == None
    ensures rc == 0 ==>
              && |ops.log| == |old(ops.log)| + 1 && ops.log[..|old(ops.log)|] == old(ops.log)
              && PackageBracket(ops.log[|old(ops.log)|], FilesOf(t, pack), pack.path, Lead(pack), old(a[..offRoot]), a.Length - offRoot,
                                manifests(old(a[..offRoot]) + Join(pack.path, true)))
    ensures rc == 0 ==>
              Installable(FilesOf(t, pack), pack.path, Content(t, pack), a.Length - offRoot, manifests(old(a[..offRoot]) + Join(pack.path, true)))
    ensures ops.Willing() &&
            Installable(FilesOf(t, pack), pack.path, Content(t, pack), a.Length - offRoot, manifests(old(a[..offRoot]) + Join(pack.path, true))) ==>
              rc == 0
  {
    hide Tree.Valid, Join, PackageBracket, FilesOf, PathText.RelText, Operations.Willing, Installable, Plugged, Content;
    ghost var prefix := a[..offRoot];
    /* path of the package */
    var len := PathText.RelPath(t, pack, a, offRoot, a.Length - offRoot, null, PathText.ForceSlash);
    Placed(t, pack, a[..], prefix, len);
    var offPack := offRoot + len;
    ghost var was := a[..];
    a[offPack] := CStrings.NUL;
    assert a[..offPack] == was[..offPack];
    assert a[..offRoot] == a[..offPack][..offRoot] == prefix;
    /* manifest and metadata */
    var m := manifests(a[..offPack]);
    rc := ops.Ask();
    if rc < 0 {
      return;
    }
    rc := ops.Begin(Some(pack.path));
    if rc >= 0 {
      var plugs;
      rc, plugs := InstallPackage(t, pack, a, offPack, m, ops, prefix);
    }
    rc := ops.End(rc);
  }

  lemma Placed(t: Tree, pack: Node, a: seq<char>, prefix: string, len: nat)
    requires t.Valid() && pack in t.nodes && |prefix| <= |a| && |Join(pack.path, true)| < |a| - |prefix|
    requires a[..|prefix|] == prefix && len == |PathText.RelText(t, pack, null, PathText.ForceSlash)|
    requires PathText.Filled(a[|prefix|..], |a| - |prefix|, PathText.RelText(t, pack, null, PathText.ForceSlash))
    ensures len == |Join(pack.path, true)| && AtPackage(a, prefix, pack, |prefix| + len)
  {
    var text := PathText.RelText(t, pack, null, PathText.ForceSlash);
    assert pack.path[0..] == pack.path;
    assert text == Join(pack.path, true);
    assert a[|prefix|..][..len] == text;
    assert a[..|prefix| + len] == a[..|prefix|] + a[|prefix|..][..len];
  }

  // -------------------------------------------------------------------- detection

  lemma TwoNames(x: string, y: string)
    requires IsName(x) && IsName(y)
    ensures Components(x + "/" + y) == [x, y]
  {
    hide Components, Join;
    JoinSingle(x);
    assert [x] + [y] == [x, y];
    PathText.JoinMore([x], [x, y], y, false);
    JoinComponents([x, y], false);
  }

  lemma ManifestNames()
    ensures Components(".rpconfig/manifest.yml") == MANIFEST
    ensures Components("config.xml") == CONFIG
  {
    hide Components;
    var x, y := ".rpconfig", "manifest.yml";
    TwoNames(x, y);
    assert x + "/" + y == ".rpconfig/manifest.yml";
    OneName("config.xml");
  }

  /** An entry that a manifest is under has children. */
  lemma HasChild(t: Tree, n: Node)
    requires t.Valid() && n in t.nodes && IsPackage(t.Paths(), n.path)
    ensures n.children != []
  {
    var q := if n.path + MANIFEST in t.Paths() then n.path + MANIFEST else n.path + CONFIG;
    var m :| m in t.nodes && m.path == q;
    assert q[..|n.path|] == n.path;
    var c := BelowChild(t, n, m);
  }

  /** Package roots, embedded ones before those that embed them. */
  method DetectRoots(t: Tree) returns (roots: seq<Node>)
    requires t.Valid()
    ensures Distinct(roots) && Ordered(false, roots)
    ensures forall n :: n in roots ==> n in t.nodes && IsPackage(t.Paths(), n.path)
    ensures forall n :: n in t.nodes && IsPackage(t.Paths(), n.path) ==> n in roots
  {
    hide Tree.Valid, Below, IsPackage, Tree.Paths, Components, Traversal, Distinct, Ordered;
    ManifestNames();
    RootThere(t);
    var all := ForEach(t, t.root, false, false);
    AllOf(t, all);
    roots := [];
    StartPick(all);
    for k := 0 to |all|
      invariant forall n :: n in roots ==> n in all[..k] && IsPackage(t.Paths(), n.path)
      invariant forall n :: n in all[..k] && IsPackage(t.Paths(), n.path) ==> n in roots
      invariant Distinct(roots) && Ordered(false, roots) && Picked(roots, all, k)
    {
      var n := all[k];
      assert all[..k + 1] == all[..k] + [n];
      var found := false;
      if |n.children| > 0 {
        var m := t.Get(n, ".rpconfig/manifest.yml");
        if m != null {
          found := true;
        } else {
          var c := t.Get(n, "config.xml");
          found := c != null;
        }
      }
      Found(t, n, found);
      PickMore(roots, all, k);
      if found {
        roots := roots + [n];
      }
    }
    assert all[..|all|] == all;
  }

  /** The entries picked so far, in the order of the walk. */
  ghost predicate Picked(roots: seq<Node>, all: seq<Node>, k: int)
    requires 0 <= k <= |all|
  {
    Distinct(all) && Ordered(false, all) && forall n :: n in roots ==> n in all[..k]
  }

  lemma PickMore(roots: seq<Node>, all: seq<Node>, k: nat)
    requires k < |all| && Picked(roots, all, k) && Distinct(roots) && Ordered(false, roots)
    ensures Picked(roots, all, k + 1) && Picked(roots + [all[k]], all, k + 1)
    ensures Distinct(roots + [all[k]]) && Ordered(false, roots + [all[k]])
  {
    var w := roots + [all[k]];
    assert all[..k + 1] == all[..k] + [all[k]];
    forall i | 0 <= i < |roots|
      ensures roots[i] != all[k] && !(roots[i].path < all[k].path)
    {
      assert roots[i] in all[..k];
      var j :| 0 <= j < k && all[j] == roots[i];
    }
  }

  lemma StartPick(all: seq<Node>)
    requires Distinct(all) && Ordered(false, all)
    ensures Distinct([]) && Ordered(false, []) && Picked([], all, 0)
  {
  }

  lemma RootThere(t: Tree)
    requires t.Valid()
    ensures t.root in t.nodes && t.root.path == []
  {
    assert t.Linked(t.root);
  }

  lemma AllOf(t: Tree, all: seq<Node>)
    requires t.Valid() && t.root in t.nodes && t.root.path == [] && Traversal(t, t.root, false, false, all)
    ensures Distinct(all) && Ordered(false, all)
    ensures forall n :: n in all ==> n in t.nodes
    ensures forall n :: n in t.nodes ==> n in all
  {
    assert forall n :: n in t.nodes ==> n in Below(t, t.root);
  }

  lemma Found(t: Tree, n: Node, found: bool)
    requires t.Valid() && n in t.nodes
    requires found <==> |n.children| > 0 && (n.path + MANIFEST in t.Paths() || n.path + CONFIG in t.Paths())
    ensures found <==> IsPackage(t.Paths(), n.path)
  {
    if IsPackage(t.Paths(), n.path) { HasChild(t, n); }
  }

  // ---------------------------------------------------------------- default files

  /** Tags the remaining added files, in pre-order, until one fails. */
  method TagDefaults(log: seq<PathText.Visit>, above: string, ops: Operations) returns (rc: Rc)
    requires ops.open == Some(Bracket(None, []))
    modifies ops
    ensures ops.log == old(ops.log) && ops.open.Some? && (ops.Willing() ==> rc == 0)
    ensures rc == 0 ==> ops.open == Some(Bracket(None, DefaultTags(log, above)))
  {
    rc := 0;
    var k := 0;
    ghost var all := DefaultTags(log, above);
    while k < |log| && rc == 0
      invariant 0 <= k <= |log| && ops.log == old(ops.log) && ops.open.Some? && (ops.Willing() ==> rc == 0)
      invariant rc == 0 ==> ops.open == Some(Bracket(None, all[..k]))
      decreases |log| - k
    {
      rc := ops.TagFile(above + log[k].text, FileTypes.Default, log[k].node.path);
      assert all[..k + 1] == all[..k] + [all[k]];
      k := k + 1;
    }
    assert all[..|log|] == all;
  }

  ghost function DefaultTags(log: seq<PathText.Visit>, above: string): (r: seq<Tag>)
    ensures |r| == |log|
  {
    seq(|log|, i requires 0 <= i < |log| => Tag(log[i].node.path, above + log[i].text, FileTypes.Default))
  }

  /** The entries of first level that were written with a slash. */
  ghost function SlashedIn(nodes: set<Node>): Leads {
    p => exists n :: n in nodes && n.path == p && n.slash
  }

  ghost predicate OnePerPath(nodes: set<Node>) {
    forall a, b :: a in nodes && b in nodes && a.path == b.path ==> a == b
  }

  /** A path starts with a slash as its first name does. */
  lemma {:induction false} AbsoluteIs(t: Tree, nodes: set<Node>, n: Node)
    requires t.Valid() && n in t.nodes && n != t.root && t.nodes <= nodes && OnePerPath(nodes)
    ensures PathText.Absolute(t, n) <==> FileLead(SlashedIn(nodes), n.path)
    decreases |n.path|
  {
    hide Tree.Valid;
    PathText.Facts(t, n);
    if |n.path| == 1 {
      assert n.path[..1] == n.path;
    } else {
      PathText.Facts(t, n.parent);
      PathText.SamePath(t, n.parent, t.root);
      AbsoluteIs(t, nodes, n.parent);
      assert n.path[..1] == n.parent.path[..1];
    }
  }

  /** What the walk over the remaining tree tags, when it comes to its end. */
  lemma DefaultWalk(t: Tree, nodes: set<Node>, log: seq<PathText.Visit>, prefix: string, size: nat)
    requires t.Valid() && t.root in t.nodes && t.nodes <= nodes && OnePerPath(nodes)
    requires PathText.Walked(true, log) == PathText.Trail(t, "", t.root, true, true, size) && PathText.Spelled(t, "", false, t.root, log)
    ensures DefaultBracket(Bracket(None, DefaultTags(log, prefix)), t.Added(), SlashedIn(nodes), prefix)
  {
    hide Tree.Valid, Order, PathText.Trail, Ordered, PathText.Spell, Join, SlashedIn, FileLead;
    var all, tags := Order(t, t.root, true, true), DefaultTags(log, prefix);
    PathText.TrailLeads(t, "", t.root, true, true, size);
    OrderTraverses(t, t.root, true, true);
    RootBelow(t);
    assert forall i :: 0 <= i < |log| ==> log[i].node == PathText.Nodes(log)[i] == all[i] && all[i] in all;
    forall i, j | 0 <= i < j < |tags| ensures tags[i].path != tags[j].path {
      PathText.SamePath(t, all[i], all[j]);
    }
    forall i | 0 <= i < |tags| ensures tags[i].text == prefix + Join(tags[i].path, FileLead(SlashedIn(nodes), tags[i].path)) {
      DefaultTextAny(t, nodes, all[i]);
    }
    forall p | p in t.Added() ensures exists i :: 0 <= i < |tags| && tags[i].path == p {
      var n :| n in t.nodes && n.added && n.path == p;
      assert n in all;
      var i :| 0 <= i < |all| && all[i] == n;
      assert tags[i].path == p;
    }
  }

  lemma DefaultTextAny(t: Tree, nodes: set<Node>, n: Node)
    requires t.Valid() && n in t.nodes && t.nodes <= nodes && OnePerPath(nodes)
    ensures t.root in t.nodes && t.root.path <= n.path
    ensures PathText.Spell(t, "", false, t.root, n) == Join(n.path, FileLead(SlashedIn(nodes), n.path))
  {
    assert t.Linked(t.root);
    hide Tree.Valid, SlashedIn;
    if n != t.root {
      DefaultText(t, n);
      AbsoluteIs(t, nodes, n);
    }
  }

  /**
   Files that belong to no package: one bracket without owner, if there is any.
   An entry that does not fit the buffer is an error here.
   */
  method DefaultTree(t: Tree, a: array<char>, offRoot: nat, ops: Operations, ghost nodes: set<Node>) returns (rc: Rc)
    requires t.Valid() && ops.open == None && t.nodes <= nodes && OnePerPath(nodes)
    requires offRoot < a.Length
    modifies a, ops
    ensures ops.open == None
    ensures rc == 0 && t.Added() == {} ==> ops.log == old(ops.log)
    ensures rc == 0 && t.Added() != {} ==>
              && t.root in t.nodes && PathText.Fits(t, "", false, t.root, a.Length - offRoot)
              && |ops.log| == |old(ops.log)| + 1 && ops.log[..|old(ops.log)|] == old(ops.log)
              && DefaultBracket(ops.log[|old(ops.log)|], t.Added(), SlashedIn(nodes), old(a[..offRoot]))
    ensures ops.Willing() && t.root in t.nodes ==>
              (rc == 0 <==> t.Added() == {} || PathText.Fits(t, "", false, t.root, a.Length - offRoot))
  {
    hide Operations.Willing;
    hide Tree.Valid, Join, Traversal, PathText.Fits, PathText.Spelled, Tree.Added, DefaultBracket, Order, PathText.Trail, OnePerPath, SlashedIn;
    RootThere(t);
    rc := 0;
    var some := ForEach(t, t.root, true, true);
    SomeAdded(t, some);
    if |some| > 0 {
      ghost var prefix := a[..offRoot];
      rc := ops.Begin(None);
      if rc >= 0 {
        assert a[offRoot..offRoot + 0] == "";
        var walked, log := PathText.DoForEach(t, t.root, a, offRoot, a.Length - offRoot, 0, true, true, false);
        rc := TagDefaults(log, a[..offRoot], ops);
        if rc == 0 {
          rc := walked;
          if walked == 0 {
            DefaultWalk(t, nodes, log, prefix, a.Length - offRoot);
          }
        }
      }
      rc := ops.End(rc);
    }
  }

  lemma SomeAdded(t: Tree, some: seq<Node>)
    requires t.Valid() && t.root in t.nodes && Traversal(t, t.root, true, true, some)
    ensures some == [] <==> t.Added() == {}
  {
    hide Ordered, Distinct;
    RootBelow(t);
    if some != [] {
      assert some[0] in some;
      assert some[0].path in t.Added();
    }
  }

  // --------------------------------------------------------------- whole process

  /** Some of the first `k` roots is at or above `p`. */
  ghost predicate Claimed(roots: seq<Node>, k: int, p: Path)
    requires 0 <= k <= |roots|
  {
    exists i :: 0 <= i < k && roots[i].path <= p
  }

  /** What is left at or below a root when its turn comes. */
  ghost function Share(roots: seq<Node>, i: int, all: set<Path>): set<Path>
    requires 0 <= i < |roots|
  {
    set p | p in all && roots[i].path <= p && !Claimed(roots, i, p)
  }

  /** The first `k` brackets are those of the first `k` roots, each with what was left below it. */
  ghost predicate Shared(log: seq<Bracket>, roots: seq<Node>, k: int, all: set<Path>, prefix: string, room: int, manifests: Manifests)
    requires 0 <= k <= |roots|
  {
    && |log| >= k
    && (forall i :: 0 <= i < k ==>
          PackageBracket(log[i], Share(roots, i, all), roots[i].path, Lead(roots[i]), prefix, room, manifests(prefix + Join(roots[i].path, true))))
  }

  lemma ClaimedMore(roots: seq<Node>, k: nat, p: Path)
    requires k < |roots|
    ensures Claimed(roots, k + 1, p) <==> Claimed(roots, k, p) || roots[k].path <= p
  {
    if Claimed(roots, k, p) {
      var i :| 0 <= i < k && roots[i].path <= p;
      assert 0 <= i < k + 1 && roots[i].path <= p;
    }
  }

  /** The root whose turn it is has not been destroyed with an earlier one. */
  lemma RootAlive(roots: seq<Node>, k: nat)
    requires k < |roots| && Ordered(false, roots)
    requires forall i, j :: 0 <= i < j < |roots| ==> roots[i].path != roots[j].path
    ensures !Claimed(roots, k, roots[k].path)
  {
    forall i | 0 <= i < k ensures !(roots[i].path <= roots[k].path) {
      assert !(roots[i].path < roots[k].path) && roots[i].path != roots[k].path;
    }
  }

  /** The roots are exactly the packages, embedded ones first. */
  ghost predicate RootsOf(roots: seq<Node>, all: set<Path>) {
    && Ordered(false, roots)
    && (forall i, j :: 0 <= i < j < |roots| ==> roots[i].path != roots[j].path)
    && (forall i :: 0 <= i < |roots| ==> roots[i].path in all && IsPackage(all, roots[i].path))
    && (forall q :: q in all && IsPackage(all, q) ==> exists i :: 0 <= i < |roots| && roots[i].path == q)
  }

  ghost predicate PrefixesIn(all: set<Path>) {
    forall p, k :: p in all && 0 <= k <= |p| ==> p[..k] in all
  }

  /** No root above a path is nearer than the first that claims it. */
  lemma NearestFirst(roots: seq<Node>, p: Path, i: nat, j: nat)
    requires Ordered(false, roots) && i < |roots| && roots[i].path <= p && !Claimed(roots, i, p)
    requires j < |roots| && roots[j].path <= p
    ensures |roots[j].path| <= |roots[i].path|
  {
    assert j >= i;
    PrefixOfLonger(roots[i].path, roots[j].path, p);
  }

  /** Of two prefixes, the shorter is a prefix of the longer. */
  lemma PrefixOfLonger(a: Path, b: Path, p: Path)
    requires a <= p && b <= p
    ensures |a| < |b| ==> a < b
    ensures |a| == |b| ==> a == b
  {
    assert a == p[..|a|] && b == p[..|b|];
    if |a| < |b| { assert a == p[..|a|] == b[..|a|]; }
  }

  /** What is left for a root is what it is the nearest package of. */
  lemma ShareIsOwned(roots: seq<Node>, all: set<Path>, i: nat)
    requires RootsOf(roots, all) && PrefixesIn(all) && i < |roots|
    ensures Share(roots, i, all) == Owned(all, roots[i].path)
  {
    hide IsPackage;
    var r := roots[i].path;
    forall p | p in all
      ensures r <= p && !Claimed(roots, i, p) <==> IsOwner(all, p, Some(r))
    {
      if r <= p && !Claimed(roots, i, p) {
        FirstIsOwner(roots, all, p, i);
      }
      if IsOwner(all, p, Some(r)) {
        forall j | 0 <= j < i ensures !(roots[j].path <= p) { OwnerIsFirst(roots, all, p, i, j); }
      }
    }
  }

  /** The first root that claims a path is the nearest. */
  lemma FirstIsOwner(roots: seq<Node>, all: set<Path>, p: Path, i: nat)
    requires RootsOf(roots, all) && PrefixesIn(all) && p in all && i < |roots| && roots[i].path <= p && !Claimed(roots, i, p)
    ensures IsOwner(all, p, Some(roots[i].path))
  {
    hide IsPackage, Ordered;
    var r := roots[i].path;
    forall j | 0 <= j < |roots| && roots[j].path <= p ensures |roots[j].path| <= |r| { NearestFirst(roots, p, i, j); }
    forall k | |r| < k <= |p|
      ensures !IsPackage(all, p[..k])
    {
      assert p[..k] in all && p[..k] <= p;
    }
  }

  /** No earlier root claims a path of which a root is the nearest. */
  lemma OwnerIsFirst(roots: seq<Node>, all: set<Path>, p: Path, i: nat, j: nat)
    requires RootsOf(roots, all) && j < i < |roots| && IsOwner(all, p, Some(roots[i].path))
    ensures !(roots[j].path <= p)
  {
    hide IsPackage;
    var r, q := roots[i].path, roots[j].path;
    assert !(q < r) && q != r;
    if q <= p {
      assert p[..|q|] == q;
      PrefixOfLonger(q, r, p);
      assert false;
    }
  }

  lemma UnclaimedIsUnowned(roots: seq<Node>, all: set<Path>, p: Path)
    requires RootsOf(roots, all) && PrefixesIn(all) && p in all
    ensures !Claimed(roots, |roots|, p) <==> IsOwner(all, p, None)
  {
    hide IsPackage, Ordered;
    if !Claimed(roots, |roots|, p) {
      forall k | 0 <= k <= |p| ensures !IsPackage(all, p[..k]) {
        assert p[..k] in all && p[..k] <= p;
      }
    }
    if IsOwner(all, p, None) {
      forall i | 0 <= i < |roots| ensures !(roots[i].path <= p) {
        if roots[i].path <= p { PackageAbove(all, roots[i].path, p); }
      }
    }
  }

  lemma PackageAbove(all: set<Path>, r: Path, p: Path)
    requires r <= p && IsPackage(all, r)
    ensures !IsOwner(all, p, None)
  {
    hide IsPackage;
    assert p[..|r|] == r;
  }

  /** The entries left when the first `k` roots are destroyed. */
  ghost function Rest(nodes: set<Node>, roots: seq<Node>, k: int): set<Node>
    requires 0 <= k <= |roots|
  {
    set n | n in nodes && !Claimed(roots, k, n.path)
  }

  ghost function PathSet(nodes: set<Node>): set<Path> {
    set n | n in nodes :: n.path
  }

  lemma RestMore(nodes: set<Node>, roots: seq<Node>, k: nat)
    requires k < |roots|
    ensures Rest(nodes, roots, k + 1) == set n | n in Rest(nodes, roots, k) && !(roots[k].path <= n.path)
  {
    hide Claimed;
    forall n | n in nodes
      ensures Claimed(roots, k + 1, n.path) <==> Claimed(roots, k, n.path) || roots[k].path <= n.path
    {
      ClaimedMore(roots, k, n.path);
    }
  }

  lemma ShareBelow(t: Tree, nodes: set<Node>, roots: seq<Node>, k: nat)
    requires k < |roots| && t.nodes == Rest(nodes, roots, k)
    ensures FilesOf(t, roots[k]) == Share(roots, k, PathSet(nodes))
  {
    hide Claimed;
  }

  lemma SharedMore(log: seq<Bracket>, log': seq<Bracket>, roots: seq<Node>, k: nat, all: set<Path>, prefix: string, room: int,
                   manifests: Manifests)
    requires k < |roots| && Shared(log, roots, k, all, prefix, room, manifests) && |log| == k && |log'| == k + 1 && log'[..k] == log
    requires PackageBracket(log'[k], Share(roots, k, all), roots[k].path, Lead(roots[k]), prefix, room, manifests(prefix + Join(roots[k].path, true)))
    ensures Shared(log', roots, k + 1, all, prefix, room, manifests)
  {
    hide PackageBracket, Share, Lead;
    assert forall i :: 0 <= i < k ==> log'[i] == log[i];
  }

  lemma DetectedRoots(t: Tree, roots: seq<Node>)
    requires t.Valid() && Distinct(roots) && Ordered(false, roots)
    requires forall n :: n in roots ==> n in t.nodes && IsPackage(t.Paths(), n.path)
    requires forall n :: n in t.nodes && IsPackage(t.Paths(), n.path) ==> n in roots
    ensures RootsOf(roots, t.Paths())
  {
    hide IsPackage, Ordered;
    var all := t.Paths();
    forall i, j | 0 <= i < j < |roots|
      ensures roots[i].path != roots[j].path
    {
      assert roots[i] in roots && roots[j] in roots;
      PathText.SamePath(t, roots[i], roots[j]);
    }
    forall q | q in all && IsPackage(all, q)
      ensures exists i :: 0 <= i < |roots| && roots[i].path == q
    {
      var n :| n in t.nodes && n.path == q;
      assert n in roots;
    }
    forall i | 0 <= i < |roots|
      ensures roots[i].path in all && IsPackage(all, roots[i].path)
    {
      assert roots[i] in roots;
    }
  }

  /** Can the package at a root be installed, with what earlier roots leave of it? */
  ghost predicate Fine(roots: seq<Node>, i: int, all: set<Path>, orders: seq<seq<Path>>, prefix: string, room: int, manifests: Manifests)
    requires 0 <= i < |roots| == |orders|
  {
    Installable(Share(roots, i, all), roots[i].path, Among(orders[i], Share(roots, i, all)), room,
                manifests(prefix + Join(roots[i].path, true)))
  }

  ghost predicate AllFine(roots: seq<Node>, k: int, all: set<Path>, orders: seq<seq<Path>>, prefix: string, room: int, manifests: Manifests)
    requires 0 <= k <= |roots| == |orders|
  {
    forall i :: 0 <= i < k ==> Fine(roots, i, all, orders, prefix, room, manifests)
  }

  /** The content of each root, in the order of its walk. */
  ghost function Orders(t: Tree, roots: seq<Node>): (r: seq<seq<Path>>)
    requires t.Valid() && forall i :: 0 <= i < |roots| ==> roots[i] in t.nodes
    reads t, t.nodes
    ensures |r| == |roots| && forall i :: 0 <= i < |roots| ==> r[i] == Content(t, roots[i])
  {
    if roots == [] then [] else Orders(t, roots[..|roots| - 1]) + [Content(t, roots[|roots| - 1])]
  }

  /** The content of the root whose turn it is, in the order it had. */
  lemma ContentLeft(t: Tree, s: PathOrder.Shape, nodes: set<Node>, roots: seq<Node>, k: nat)
    requires t.Valid() && PathOrder.Left(t, s, nodes) && k < |roots| && roots[k] in t.nodes
    requires t.nodes == Rest(nodes, roots, k) && OnePerPath(nodes)
    ensures roots[k] in s.parts && s.parts[roots[k]] != []
    ensures var parts := s.parts[roots[k]];
            Content(t, roots[k]) == Among(PathsIn(parts[|parts| - 1]), Share(roots, k, PathSet(nodes)))
  {
    hide Tree.Valid, OrderKids, Order, Claimed, Among, PathOrder.Sift;
    var n := roots[k];
    PathOrder.OrderLeft(t, s, nodes, n);
    assert PathOrder.CoherentAt(s, nodes, n);
    var part := s.parts[n][|s.kids[n]|];
    var all := s.orders[n];
    forall i | 0 <= i < |part| ensures part[i] in t.nodes <==> part[i].path in Share(roots, k, PathSet(nodes)) {
      assert all[i + 1] == part[i];
      if part[i].path in Share(roots, k, PathSet(nodes)) {
        assert !Claimed(roots, k, part[i].path);
      }
    }
    SiftedPaths(part, t.nodes, Share(roots, k, PathSet(nodes)));
  }

  /** Processes the roots in the order found, destroying each; stops at the first error. */
  method ProcessRoots(t: Tree, roots: seq<Node>, a: array<char>, offRoot: nat, manifests: Manifests, ops: Operations)
    returns (rc: Rc)
    requires t.Valid() && ops.log == [] && ops.open == None && offRoot < a.Length
    requires RootsOf(roots, t.Paths())
    requires forall i :: 0 <= i < |roots| ==>
               roots[i] in t.nodes && roots[i] != t.root && |Join(roots[i].path, true)| < a.Length - offRoot
    modifies t, t.nodes`children, a, ops
    ensures t.Valid() && ops.open == None && a[..offRoot] == old(a[..offRoot])
    ensures rc == 0 ==>
              && t.nodes <= old(t.nodes) && t.nodes == Rest(old(t.nodes), roots, |roots|)
              && |ops.log| == |roots|
              && Shared(ops.log, roots, |roots|, old(t.Paths()), old(a[..offRoot]), a.Length - offRoot, manifests)
    ensures rc == 0 ==> AllFine(roots, |roots|, old(t.Paths()), old(Orders(t, roots)), old(a[..offRoot]), a.Length - offRoot, manifests)
    ensures ops.Willing() && AllFine(roots, |roots|, old(t.Paths()), old(Orders(t, roots)), old(a[..offRoot]), a.Length - offRoot, manifests) ==>
              rc == 0
  {
    hide Operations.Willing, Fine, Orders, OnePerPath;
    hide Tree.Valid, Share, PackageBracket, Claimed, Rest, IsPackage, Ordered, Join, Shared, RootsOf, Lead, PathOrder.Left, PathOrder.ShapeOf;
    ghost var nodes, prefix := t.nodes, a[..offRoot];
    ghost var room := a.Length - offRoot;
    ghost var all, orders := PathSet(nodes), Orders(t, roots);
    StartShare(t, nodes, roots, prefix, room, manifests);
    OneNodePerPath(t);
    ghost var s := PathOrder.ShapeOf(t);
    PathOrder.LeftAtFirst(t);
    PartsAre(t, s, roots);
    rc := 0;
    var k := 0;
    while k < |roots|
      invariant 0 <= k <= |roots| && rc == 0 && ops.open == None && |ops.log| == k
      invariant t.Valid() && t.nodes <= nodes && t.nodes == Rest(nodes, roots, k)
      invariant a[..offRoot] == prefix && PathOrder.Left(t, s, nodes)
      invariant Shared(ops.log, roots, k, all, prefix, room, manifests)
      invariant AllFine(roots, k, all, orders, prefix, room, manifests)
      decreases |roots| - k
    {
      ghost var log := ops.log;
      rc := ProcessRoot(t, roots, k, a, offRoot, manifests, ops, s, nodes, orders);
      if rc < 0 {
        return;
      }
      SharedMore(log, ops.log, roots, k, all, prefix, room, manifests);
      k := k + 1;
    }
  }

  /** The orders are those of the shape. */
  ghost predicate OrdersIn(orders: seq<seq<Path>>, roots: seq<Node>, s: PathOrder.Shape) {
    && |orders| == |roots|
    && forall i :: 0 <= i < |roots| ==>
         roots[i] in s.parts && s.parts[roots[i]] != [] && PathsIn(s.parts[roots[i]][|s.parts[roots[i]]| - 1]) == orders[i]
  }

  /** The root whose turn it is: its package is processed, and it is destroyed. */
  method ProcessRoot(t: Tree, roots: seq<Node>, k: nat, a: array<char>, offRoot: nat, manifests: Manifests, ops: Operations,
                     ghost s: PathOrder.Shape, ghost nodes: set<Node>, ghost orders: seq<seq<Path>>)
    returns (rc: Rc)
    requires t.Valid() && ops.open == None && offRoot < a.Length && k < |roots|
    requires RootsOf(roots, PathSet(nodes)) && OnePerPath(nodes) && OrdersIn(orders, roots, s)
    requires t.nodes <= nodes && t.nodes == Rest(nodes, roots, k) && PathOrder.Left(t, s, nodes)
    requires roots[k] in nodes && roots[k] != t.root && |Join(roots[k].path, true)| < a.Length - offRoot
    modifies t, t.nodes`children, a, ops
    ensures t.Valid() && t.nodes <= nodes && t.nodes <= old(t.nodes) && t.nodes == Rest(nodes, roots, k + 1) && PathOrder.Left(t, s, nodes)
    ensures ops.open == None && a[..offRoot] == old(a[..offRoot])
    ensures rc == 0 ==>
              && |ops.log| == |old(ops.log)| + 1 && ops.log[..|old(ops.log)|] == old(ops.log)
              && PackageBracket(ops.log[|old(ops.log)|], Share(roots, k, PathSet(nodes)), roots[k].path, Lead(roots[k]),
                                old(a[..offRoot]), a.Length - offRoot, manifests(old(a[..offRoot]) + Join(roots[k].path, true)))
    ensures rc == 0 ==> Fine(roots, k, PathSet(nodes), orders, old(a[..offRoot]), a.Length - offRoot, manifests)
    ensures ops.Willing() && Fine(roots, k, PathSet(nodes), orders, old(a[..offRoot]), a.Length - offRoot, manifests) ==> rc == 0
  {
    hide Operations.Willing, Installable, Content, Among, OnePerPath;
    hide Tree.Valid, Share, PackageBracket, Claimed, Rest, RootsOf, Join, FilesOf, Lead, PathOrder.Left, PathOrder.LeftLists, WithoutOne;
    Alive(nodes, roots, k, PathSet(nodes));
    ShareBelow(t, nodes, roots, k);
    ContentLeft(t, s, nodes, roots, k);
    rc := ProcessPackage(t, roots[k], a, offRoot, manifests, ops);
    ghost var before := PathOrder.ListsOf(t);
    PathOrder.ListsLeft(t, s, nodes);
    ParentOf(t, roots[k]);
    Destroy(t, roots[k]);
    Destroyed(t, s, nodes, roots, k, before);
  }

  lemma PartsAre(t: Tree, s: PathOrder.Shape, roots: seq<Node>)
    requires t.Valid() && s == PathOrder.ShapeOf(t) && forall i :: 0 <= i < |roots| ==> roots[i] in t.nodes
    ensures OrdersIn(Orders(t, roots), roots, s)
  {
    hide Tree.Valid, OrderKids, Order;
  }

  /** What is left after one more root is destroyed. */
  lemma Destroyed(t: Tree, s: PathOrder.Shape, nodes: set<Node>, roots: seq<Node>, k: nat, before: map<Node, seq<Node>>)
    requires k < |roots| && roots[k] in before && before.Keys <= nodes && before.Keys == Rest(nodes, roots, k)
    requires t.Valid() && PathOrder.LeftLists(before, s, nodes)
    requires forall n :: n in t.nodes <==> n in before && !(roots[k].path <= n.path)
    requires forall n :: n in before && n != roots[k].parent ==> n.children == before[n]
    requires roots[k].parent != null && roots[k].parent in before
    requires WithoutOne(before[roots[k].parent], roots[k].parent.children, roots[k])
    ensures t.nodes <= nodes && t.nodes == Rest(nodes, roots, k + 1) && PathOrder.Left(t, s, nodes)
  {
    hide Rest, Tree.Valid, WithoutOne, PathOrder.Left, PathOrder.LeftLists;
    RestMore(nodes, roots, k);
    PathOrder.LeftLess(t, s, nodes, roots[k], before);
  }

  lemma StartShare(t: Tree, nodes: set<Node>, roots: seq<Node>, prefix: string, room: int, manifests: Manifests)
    requires nodes == t.nodes
    ensures Rest(nodes, roots, 0) == nodes && Shared([], roots, 0, PathSet(nodes), prefix, room, manifests) && PathSet(nodes) == t.Paths()
  {
    assert forall p :: !Claimed(roots, 0, p);
  }

  lemma Alive(nodes: set<Node>, roots: seq<Node>, k: nat, all: set<Path>)
    requires k < |roots| && RootsOf(roots, all) && roots[k] in nodes
    ensures roots[k] in Rest(nodes, roots, k)
  {
    RootAlive(roots, k);
  }

  /** What is left and added belongs to no package. */
  lemma LeftOver(t: Tree, nodes: set<Node>, added: set<Path>, roots: seq<Node>, all: set<Path>)
    requires t.nodes == Rest(nodes, roots, |roots|) && t.nodes <= nodes
    requires added == set n | n in nodes && n.added :: n.path
    requires RootsOf(roots, all) && PrefixesIn(all) && added <= all
    ensures t.Added() == Unowned(all, added)
  {
    hide Claimed, IsOwner, RootsOf, PrefixesIn;
    forall p | p in added ensures !Claimed(roots, |roots|, p) <==> IsOwner(all, p, None) {
      UnclaimedIsUnowned(roots, all, p);
    }
  }

  lemma Prefixes(t: Tree)
    requires t.Valid()
    ensures PrefixesIn(t.Paths()) && t.Added() <= t.Paths()
  {
    forall p, k | p in t.Paths() && 0 <= k <= |p| ensures p[..k] in t.Paths() {
      t.PrefixClosed(p, k);
    }
  }

  /** The brackets of the roots, and the default one if there is one, are those of a whole installation. */
  lemma WholeInstallation(log: seq<Bracket>, roots: seq<Node>, nodes: set<Node>, all: set<Path>, added: set<Path>, prefix: string, room: int,
                          manifests: Manifests)
    requires RootsOf(roots, all) && PrefixesIn(all) && OnePerPath(nodes) && (forall i :: 0 <= i < |roots| ==> roots[i] in nodes)
    requires Shared(log, roots, |roots|, all, prefix, room, manifests)
    requires Unowned(all, added) == {} ==> |log| == |roots|
    requires Unowned(all, added) != {} ==>
               |log| == |roots| + 1 && DefaultBracket(log[|roots|], Unowned(all, added), SlashedIn(nodes), prefix)
    ensures Installed(log, all, added, SlashedIn(nodes), prefix, room, manifests)
  {
    hide IsPackage, Ordered, Share, PrefixesIn, Owned, Unowned, Within, Reaches, AllFit, Solved, Texts;
    var slashed := SlashedIn(nodes);
    forall i | 0 <= i < |roots|
      ensures log[i].owner == Some(roots[i].path) && roots[i].path in all && IsPackage(all, roots[i].path)
      ensures PackageBracket(log[i], Owned(all, roots[i].path), roots[i].path, PackageLead(slashed, roots[i].path), prefix, room, manifests(prefix + Join(roots[i].path, true)))
    {
      ShareIsOwned(roots, all, i);
      assert PackageLead(slashed, roots[i].path) == Lead(roots[i]);
    }
    forall i, j | 0 <= i < j < |log| ensures log[i].owner != log[j].owner {
      assert j < |roots| ==> log[j].owner == Some(roots[j].path);
    }
    forall r | r in all && IsPackage(all, r) ensures exists i :: 0 <= i < |log| && log[i].owner == Some(r) {
      var i :| 0 <= i < |roots| && roots[i].path == r;
    }
  }

  /** The content of every entry, in the order of its walk. */
  ghost function Contents(t: Tree): map<Path, seq<Path>>
    requires t.Valid()
    reads t, t.nodes
  {
    map n | n in t.nodes :: n.path := Content(t, n)
  }

  lemma ContentsAt(t: Tree, n: Node)
    requires t.Valid() && n in t.nodes
    ensures n.path in Contents(t) && Contents(t)[n.path] == Content(t, n)
  {
    hide Content;
  }

  lemma FineIff(t: Tree, roots: seq<Node>, prefix: string, room: int, manifests: Manifests)
    requires t.Valid() && RootsOf(roots, t.Paths()) && PrefixesIn(t.Paths())
    requires forall i :: 0 <= i < |roots| ==> roots[i] in t.nodes
    ensures AllFine(roots, |roots|, t.Paths(), Orders(t, roots), prefix, room, manifests) <==>
            PackagesFine(t.Paths(), Contents(t), prefix, room, manifests)
  {
    hide Tree.Valid, IsPackage, Ordered, Join, Installable, Among, Content, Contents, Share, Owned, PrefixesIn, Tree.Paths;
    var all := t.Paths();
    forall i | 0 <= i < |roots|
      ensures Share(roots, i, all) == Owned(all, roots[i].path) && IsPackage(all, roots[i].path)
      ensures roots[i].path in Contents(t) && Contents(t)[roots[i].path] == Content(t, roots[i])
    {
      ShareIsOwned(roots, all, i);
      ContentsAt(t, roots[i]);
    }
    if AllFine(roots, |roots|, all, Orders(t, roots), prefix, room, manifests) {
      forall r | r in all && IsPackage(all, r) ensures PackageFine(all, r, Contents(t), prefix, room, manifests) {
        var i :| 0 <= i < |roots| && roots[i].path == r;
        assert Fine(roots, i, all, Orders(t, roots), prefix, room, manifests);
      }
    }
    if PackagesFine(all, Contents(t), prefix, room, manifests) {
      forall i | 0 <= i < |roots| ensures Fine(roots, i, all, Orders(t, roots), prefix, room, manifests) {
        assert PackageFine(all, roots[i].path, Contents(t), prefix, room, manifests);
      }
    }
  }

  /** The guard of the walk over what is left, for one entry. */
  lemma LeftPasses(t: Tree, nodes: set<Node>, n: Node, room: nat)
    requires t.Valid() && n in t.nodes && n != t.root && t.nodes <= nodes && OnePerPath(nodes)
    ensures t.root in t.nodes && t.root.path <= n.path
    ensures PathText.Room(PathText.LengthBefore(t, "", false, t.root, n), n, room) <==>
            |Join(n.path, |n.path| == 1 || FileLead(SlashedIn(nodes), n.path))| < room
  {
    DefaultTextAny(t, nodes, n);
    hide Tree.Valid, SlashedIn, Join;
    PathText.Facts(t, n);
    PathText.Up(t, t.root, n);
    PathText.SamePath(t, n.parent, t.root);
    var lead := FileLead(SlashedIn(nodes), n.path);
    JoinStep(n.parent.path, n.name, |n.path| == 1 || lead);
    if n.parent == t.root {
      PathText.SpellSelf(t, "", t.root);
      RootUnnamed(t);
      assert n.path == [] + [n.name];
      EmptyJoin();
    } else {
      DefaultTextAny(t, nodes, n.parent);
      assert n.path[..1] == n.parent.path[..1];
    }
  }

  lemma RootUnnamed(t: Tree)
    requires t.Valid()
    ensures t.root.name == "" && t.root.path == []
  {
    assert t.Linked(t.root);
  }

  /** What is left fits exactly when the paths of no package do. */
  lemma LeftFits(t: Tree, nodes: set<Node>, roots: seq<Node>, all: set<Path>, room: nat)
    requires t.Valid() && t.root in t.nodes && t.nodes <= nodes && OnePerPath(nodes) && all == PathSet(nodes)
    requires t.nodes == Rest(nodes, roots, |roots|) && RootsOf(roots, all) && PrefixesIn(all)
    ensures PathText.Fits(t, "", false, t.root, room) <==> DefaultsFit(all, SlashedIn(nodes), room)
  {
    hide Tree.Valid, SlashedIn, Join, IsOwner, Claimed, RootsOf, PrefixesIn, OnePerPath, PathText.LengthBefore, PathText.Room;
    RootBelow(t);
    RootUnnamed(t);
    var slashed := SlashedIn(nodes);
    forall n | n in t.nodes ensures IsOwner(all, n.path, None) { UnclaimedIsUnowned(roots, all, n.path); }
    forall n | n in t.nodes && n != t.root
      ensures n.path != []
      ensures PathText.Room(PathText.LengthBefore(t, "", false, t.root, n), n, room) <==>
              |Join(n.path, |n.path| == 1 || FileLead(slashed, n.path))| < room
    {
      LeftPasses(t, nodes, n, room);
      PathText.SamePath(t, n, t.root);
    }
    if PathText.Fits(t, "", false, t.root, room) {
      forall p | p in all && p != [] && IsOwner(all, p, None) ensures |Join(p, |p| == 1 || FileLead(slashed, p))| < room {
        UnclaimedIsUnowned(roots, all, p);
        var n :| n in nodes && n.path == p;
      }
    }
    assert PathText.Room(PathText.LengthBefore(t, "", false, t.root, t.root), t.root, room) by { RoomUnnamed(t, room); }
  }

  lemma RoomUnnamed(t: Tree, room: nat)
    requires t.Valid() && t.root in t.nodes
    ensures PathText.Room(PathText.LengthBefore(t, "", false, t.root, t.root), t.root, room)
  {
    assert t.Linked(t.root);
  }

  /** What follows the packages: the files of none. */
  method InstallRest(t: Tree, roots: seq<Node>, a: array<char>, offRoot: nat, manifests: Manifests, ops: Operations,
                     ghost nodes: set<Node>, ghost all: set<Path>, ghost added: set<Path>)
    returns (rc: Rc)
    requires t.Valid() && ops.open == None && offRoot < a.Length && |ops.log| == |roots|
    requires t.nodes <= nodes && t.nodes == Rest(nodes, roots, |roots|) && OnePerPath(nodes) && all == PathSet(nodes)
    requires added == (set n | n in nodes && n.added :: n.path) && added <= all
    requires RootsOf(roots, all) && PrefixesIn(all) && forall i :: 0 <= i < |roots| ==> roots[i] in nodes
    requires Shared(ops.log, roots, |roots|, all, a[..offRoot], a.Length - offRoot, manifests)
    modifies a, ops
    ensures rc == 0 ==> Installed(ops.log, all, added, SlashedIn(nodes), old(a[..offRoot]), a.Length - offRoot, manifests)
    ensures rc == 0 && AllFit(all, true, a.Length - offRoot) ==> forall p :: p in added ==> TaggedOnce(ops.log, all, p)
    ensures rc == 0 ==> RestFine(all, added, SlashedIn(nodes), a.Length - offRoot)
    ensures ops.Willing() && RestFine(all, added, SlashedIn(nodes), a.Length - offRoot) ==> rc == 0
  {
    hide Operations.Willing, Unowned, DefaultsFit, PathText.Fits, OnePerPath, Tree.Added, AllFit, TaggedOnce;
    hide Tree.Valid, IsPackage, Ordered, Join, Shared, RootsOf, Installed, SlashedIn, Rest, PrefixesIn, DefaultBracket;
    ghost var prefix, room := a[..offRoot], a.Length - offRoot;
    LeftOver(t, nodes, added, roots, all);
    RootThere(t);
    LeftFits(t, nodes, roots, all, room);
    ghost var log := ops.log;
    rc := DefaultTree(t, a, offRoot, ops, nodes);
    if rc == 0 {
      SharedStays(log, ops.log, roots, all, prefix, room, manifests);
      WholeInstallation(ops.log, roots, nodes, all, added, prefix, room, manifests);
      if AllFit(all, true, room) {
        forall p | p in added ensures TaggedOnce(ops.log, all, p) {
          FitIsEnough(ops.log, all, added, SlashedIn(nodes), prefix, room, manifests, roots, p);
        }
      }
    }
  }

  /**
   Installs everything. On success there is one bracket for each package, with
   all of its files, under their paths and with the types of the equations, if
   their paths fit the buffer, and one bracket for the files of no package. When
   no operation fails it succeeds exactly if each package can be installed, and
   the paths of no package fit if there are files of none.
   */
  method Install(t: Tree, a: array<char>, offRoot: nat, manifests: Manifests, ops: Operations) returns (rc: Rc)
    requires t.Valid() && ops.log == [] && ops.open == None && offRoot < a.Length
    requires !IsPackage(t.Paths(), [])
    requires forall p :: p in t.Paths() && IsPackage(t.Paths(), p) ==> |Join(p, true)| < a.Length - offRoot
    modifies t, t.nodes`children, a, ops
    ensures rc == 0 ==>
              Installed(ops.log, old(t.Paths()), old(t.Added()), old(SlashedIn(t.nodes)), old(a[..offRoot]), a.Length - offRoot, manifests)
    ensures rc == 0 && AllFit(old(t.Paths()), true, a.Length - offRoot) ==>
              forall p :: p in old(t.Added()) ==> TaggedOnce(ops.log, old(t.Paths()), p)
    ensures var can := CanInstall(old(t.Paths()), old(t.Added()), old(Contents(t)), old(SlashedIn(t.nodes)), old(a[..offRoot]), a.Length - offRoot, manifests);
            (rc == 0 ==> can) && (ops.Willing() && can ==> rc == 0)
  {
    hide Operations.Willing, RestFine, PackagesFine, AllFine, OnePerPath, Orders, Contents;
    hide Tree.Valid, IsPackage, Ordered, Join, Shared, RootsOf, TaggedOnce, Distinct, Installed, AllFit, SlashedIn, Rest, PrefixesIn;
    ghost var nodes, all, added, prefix := t.nodes, t.Paths(), t.Added(), a[..offRoot];
    ghost var room := a.Length - offRoot;
    Prefixes(t);
    OneNodePerPath(t);
    RootThere(t);
    var roots := DetectRoots(t);
    DetectedRoots(t, roots);
    RootsReady(t, roots);
    FineIff(t, roots, prefix, room, manifests);
    rc := ProcessRoots(t, roots, a, offRoot, manifests, ops);
    if rc < 0 {
      return;
    }
    rc := InstallRest(t, roots, a, offRoot, manifests, ops, nodes, all, added);
  }

  lemma OneNodePerPath(t: Tree)
    requires t.Valid()
    ensures OnePerPath(t.nodes)
  {
  }

  lemma RootsReady(t: Tree, roots: seq<Node>)
    requires t.Valid() && t.root.path == [] && !IsPackage(t.Paths(), [])
    requires forall n :: n in roots ==> n in t.nodes && IsPackage(t.Paths(), n.path)
    ensures forall i :: 0 <= i < |roots| ==>
              roots[i] in t.nodes && roots[i] != t.root && roots[i].path in t.Paths() && IsPackage(t.Paths(), roots[i].path)
  {
    hide IsPackage;
    forall i | 0 <= i < |roots|
      ensures roots[i] in t.nodes && roots[i] != t.root && roots[i].path in t.Paths() && IsPackage(t.Paths(), roots[i].path)
    {
      assert roots[i] in roots;
    }
  }

  lemma FitIsEnough(log: seq<Bracket>, all: set<Path>, added: set<Path>, slashed: Leads, prefix: string, room: int,
                    manifests: Manifests, roots: seq<Node>, p: Path)
    requires Installed(log, all, added, slashed, prefix, room, manifests) && RootsOf(roots, all) && PrefixesIn(all)
    requires AllFit(all, true, room) && p in added && p in all
    ensures TaggedOnce(log, all, p)
  {
    hide Installed, IsPackage, Ordered, Join, TaggedOnce;
    if Claimed(roots, |roots|, p) {
      var i := FirstClaim(roots, |roots|, p);
      FirstIsOwner(roots, all, p, i);
      var r := roots[i].path;
      forall q | q in Owned(all, r) ensures |Join(q, PackageLead(slashed, r))| < room {
        assert |Join(q, true)| < room;
        if q == [] { EmptyJoin(); } else { JoinLead(q); }
      }
      EveryFileOnce(log, all, added, slashed, prefix, room, manifests, p, Some(r));
    } else {
      UnclaimedIsUnowned(roots, all, p);
      EveryFileOnce(log, all, added, slashed, prefix, room, manifests, p, None);
    }
  }

  /** The first root that claims a path. */
  lemma {:induction false} FirstClaim(roots: seq<Node>, k: nat, p: Path) returns (i: nat)
    requires k <= |roots| && Claimed(roots, k, p)
    ensures i < k && roots[i].path <= p && !Claimed(roots, i, p)
  {
    if Claimed(roots, k - 1, p) {
      i := FirstClaim(roots, k - 1, p);
    } else {
      ClaimedMore(roots, k - 1, p);
      i := k - 1;
    }
  }

  lemma SharedStays(log: seq<Bracket>, log': seq<Bracket>, roots: seq<Node>, all: set<Path>, prefix: string, room: int, manifests: Manifests)
    requires Shared(log, roots, |roots|, all, prefix, room, manifests) && |log| == |roots| <= |log'| && log'[..|log|] == log
    ensures Shared(log', roots, |roots|, all, prefix, room, manifests)
  {
    hide PackageBracket, Share, Lead;
    assert forall i :: 0 <= i < |roots| ==> log'[i] == log[i];
  }

  /** Files get the type computed for them; one without type is taken for a configuration file. */
  lemma TagsOfTypes(types: FileTypes.Types, n: Node)
    ensures n !in types ==> TagOf(types, n) == FileTypes.Conf
    ensures n in types && types[n] != FileTypes.Unset ==> TagOf(types, n) == types[n]
    ensures n in types && types[n] == FileTypes.Unset ==> TagOf(types, n) == FileTypes.Conf
  {
  }

  /** What follows the path of a package is a slash and the directory of the plug, as long as there is room. */
  lemma PlugPartIs(dir: string, room: nat)
    requires CStrings.NUL !in dir && |dir| + 1 < room
    ensures PlugPart(dir, room) == "/" + dir
  {
    NoNul(dir, 0);
    assert dir[0..] == dir;
  }

  lemma {:induction false} NoNul(s: string, p: nat)
    requires p <= |s| && CStrings.NUL !in s
    ensures CStrings.CStr(s, p) == s[p..]
    decreases |s| - p
  {
    if p < |s| {
      NoNul(s, p + 1);
      assert s[p] in s;
    }
  }
}
