/**
 Making and checking the digest of the added files of a tree of paths
 (src/cert/digest.c), from the unnamed root of the tree.
 */
module DigestTree {
  import opened Digest
  import opened DigestFile
  import opened Limits
  import opened Errors
  import opened Options
  import PathReach
  import PathText
  import opened PathTree
  import opened PathWalk
  import opened Paths
  import opened TextLines

  /** The text of the path of an entry, as walks from the root spell it. */
  ghost function TextOf(t: Tree, n: Node): string
    requires t.Valid() && n in t.nodes
    reads t, t.nodes
  {
    RootFacts(t, n);
    PathText.Spell(t, "", false, t.root, n)
  }

  lemma RootFacts(t: Tree, n: Node)
    requires t.Valid() && n in t.nodes
    ensures t.root in t.nodes && t.root.path == [] && t.root.path <= n.path && n in Below(t, t.root)
    ensures n.path == [] <==> n == t.root
    ensures t.root.name == ""
  {
    assert t.Linked(t.root) && t.Linked(n);
  }

  lemma TextStep(t: Tree, n: Node)
    requires t.Valid() && n in t.nodes && n != t.root
    ensures n.parent != null && n.parent in t.nodes && |n.parent.path| < |n.path| && IsName(n.name)
    ensures n.parent == t.root ==> TextOf(t, n) == (if n.slash then "/" else "") + n.name
    ensures n.parent != t.root ==> TextOf(t, n) == TextOf(t, n.parent) + "/" + n.name
  {
    hide Tree.Valid;
    RootFacts(t, n);
    PathText.Facts(t, n);
    PathText.Up(t, t.root, n);
    RootFacts(t, n.parent);
    if n.parent == t.root {
      assert PathText.Spell(t, "", false, t.root, t.root) == "";
    } else {
      assert n.slash;
    }
  }

  /** Walking down and going up write the same text, which leads back to the entry. */
  lemma {:induction false} TextsAgree(t: Tree, n: Node)
    requires t.Valid() && n in t.nodes && n != t.root
    ensures TextOf(t, n) == PathText.RelText(t, n, null, PathText.Auto)
    ensures TextOf(t, n) != ""
    decreases |n.path|
  {
    hide Tree.Valid, TextOf, PathText.RelText;
    TextStep(t, n);
    if n.parent == t.root {
      PathText.RelTextFirst(t, n, null, PathText.Auto);
    } else {
      PathText.RelTextNext(t, n, null, PathText.Auto);
      TextsAgree(t, n.parent);
    }
  }

  lemma TextLeadsBack(t: Tree, n: Node)
    requires t.Valid() && n in t.nodes
    ensures Components(TextOf(t, n)) == n.path && (TextOf(t, n) == "" <==> n == t.root)
  {
    hide Components, Join;
    RootFacts(t, n);
    if n != t.root {
      TextsAgree(t, n);
      NodePath(t, n);
      assert n.path[0..] == n.path;
      JoinComponents(n.path, PathText.Slashed(t, n, null, PathText.Auto));
    } else {
      EmptyComponents();
      PathText.Facts(t, n);
      assert t.Linked(n);
    }
  }

  lemma EmptyComponents()
    ensures Components("") == []
  {
  }

  lemma {:induction false} NodePath(t: Tree, n: Node)
    requires t.Valid() && n in t.nodes
    ensures IsPath(n.path)
    decreases |n.path|
  {
    RootFacts(t, n);
    PathText.Facts(t, n);
    if n != t.root { NodePath(t, n.parent); }
  }

  /** A path written into a buffer of PATH_MAX characters and a null. */
  function Clipped(s: string): string {
    s[..PathText.Min(|s|, PATH_MAX)]
  }

  /** The texts by which the checker opens entries; that of the root is never written. */
  ghost function NamesOf(t: Tree, stale: string): Names
    requires t.Valid()
    reads t, t.nodes
  {
    map n | n in t.nodes :: n.path := if n == t.root then stale else Clipped(TextOf(t, n))
  }

  lemma NameIs(t: Tree, n: Node, stale: string)
    requires t.Valid() && n in t.nodes
    ensures n.path in NamesOf(t, stale)
    ensures NamesOf(t, stale)[n.path] == if n == t.root then stale else Clipped(TextOf(t, n))
  {
  }

  ghost function FilesOf(log: seq<PathText.Visit>): (files: seq<File>)
    ensures |files| == |log|
  {
    seq(|log|, i requires 0 <= i < |log| => File(log[i].node.path, log[i].text))
  }

  ghost function Walk(t: Tree): PathText.Walked
    requires t.Valid()
    reads t, t.nodes
  {
    PathText.Trail(t, "", t.root, false, true, PATH_MAX)
  }

  /** The files that a walk over the added entries comes to, in its order. A path too long ends it. */
  ghost function TreeFiles(t: Tree): seq<File>
    requires t.Valid()
    reads t, t.nodes
  {
    FilesOf(Walk(t).log)
  }

  /** Each file of the walk is an added entry, under its text, which fits the buffer. */
  lemma WalkFacts(t: Tree, i: nat) returns (n: Node)
    requires t.Valid() && i < |TreeFiles(t)|
    ensures t.root in t.nodes && i < |Walk(t).log| && n == Walk(t).log[i].node
    ensures n in t.nodes && n.added && TreeFiles(t)[i] == File(n.path, TextOf(t, n)) && |TextOf(t, n)| < PATH_MAX
  {
    RootFacts(t, t.root);
    hide Tree.Valid, Ordered, Distinct, PathText.Trail, Order, PathText.Spell;
    var log := Walk(t).log;
    PathText.TrailLeads(t, "", t.root, false, true, PATH_MAX);
    PathText.TrailTells(t, "", t.root, false, true, PATH_MAX);
    OrderTraverses(t, t.root, false, true);
    var all := Order(t, t.root, false, true);
    assert log[i].node == PathText.Nodes(log)[i] == all[i] && all[i] in all;
    n := log[i].node;
  }

  lemma WalkDistinct(t: Tree, i: nat, j: nat)
    requires t.Valid() && i < j < |TreeFiles(t)|
    ensures TreeFiles(t)[i].path != TreeFiles(t)[j].path
  {
    RootFacts(t, t.root);
    hide Tree.Valid, Ordered, PathText.Trail, Order;
    var log := Walk(t).log;
    PathText.TrailLeads(t, "", t.root, false, true, PATH_MAX);
    OrderTraverses(t, t.root, false, true);
    var all := Order(t, t.root, false, true);
    assert forall k :: 0 <= k < |log| ==> log[k].node == PathText.Nodes(log)[k] == all[k];
    assert all[i] in all && all[j] in all;
    PathText.SamePath(t, all[i], all[j]);
  }

  /** Does the walk come to the entry? No path that it must pass before is too long, nor is that of the entry. */
  ghost predicate Reached(t: Tree, n: Node)
    requires t.Valid()
    reads t, t.nodes
  {
    PathReach.ComesTo(t, "", t.root, n, PATH_MAX)
  }

  /** An added entry is a file of the walk exactly when the walk comes to it. */
  lemma WalkedIff(t: Tree, n: Node)
    requires t.Valid() && n in t.nodes && n.added
    ensures File(n.path, TextOf(t, n)) in TreeFiles(t) <==> Reached(t, n)
  {
    RootFacts(t, n);
    hide Tree.Valid, PathText.Trail, TextOf, PathReach.ComesTo;
    var log, files := Walk(t).log, TreeFiles(t);
    PathReach.ToldIff(t, "", t.root, n, PATH_MAX);
    if Reached(t, n) {
      var i :| 0 <= i < |log| && PathText.Nodes(log)[i] == n;
      var m := WalkFacts(t, i);
      assert files[i] == File(n.path, TextOf(t, n));
    }
    if File(n.path, TextOf(t, n)) in files {
      var i :| 0 <= i < |files| && files[i] == File(n.path, TextOf(t, n));
      var m := WalkFacts(t, i);
      PathText.SamePath(t, m, n);
      assert PathText.Nodes(log)[i] == n;
    }
  }

  /** When no path is too long, every added entry is a file of the walk. */
  lemma WalkComplete(t: Tree, n: Node)
    requires t.Valid() && t.root in t.nodes && PathText.Fits(t, "", false, t.root, PATH_MAX) && n in t.nodes && n.added
    ensures Reached(t, n) && File(n.path, TextOf(t, n)) in TreeFiles(t)
  {
    hide Tree.Valid, TreeFiles, TextOf, PathText.Fits;
    PathReach.FitsAllCome(t, "", t.root, n, PATH_MAX);
    WalkedIff(t, n);
  }

  /** The files of the walk are the added entries that it comes to. */
  lemma FilesReached(t: Tree, f: File) returns (n: Node)
    requires t.Valid() && f in TreeFiles(t)
    ensures n in t.nodes && n.added && f == File(n.path, TextOf(t, n)) && Reached(t, n) && |f.text| < PATH_MAX
  {
    hide Tree.Valid, TextOf, Walk, Reached;
    var files := TreeFiles(t);
    var i :| 0 <= i < |files| && files[i] == f;
    n := WalkFacts(t, i);
    WalkedIff(t, n);
  }

  lemma TreeListing(t: Tree, stale: string)
    requires t.Valid()
    ensures Listing(TreeFiles(t), NamesOf(t, stale))
  {
    hide Tree.Valid, TextOf, Components, TreeFiles, NamesOf, Walk;
    var files := TreeFiles(t);
    forall i, j | 0 <= i < j < |files| ensures files[i].path != files[j].path { WalkDistinct(t, i, j); }
    forall f | f in files
      ensures f.path in NamesOf(t, stale) && Components(f.text) == f.path && (f.text != "" ==> NamesOf(t, stale)[f.path] == f.text)
    {
      var i :| 0 <= i < |files| && files[i] == f;
      var n := WalkFacts(t, i);
      TextLeadsBack(t, n);
      NameIs(t, n, stale);
      assert Clipped(f.text) == f.text;
    }
  }

  /** The digest of a tree. */
  ghost function DigestOf(t: Tree, alg: Algorithm, hash: Hasher, distributor: bool): string
    requires t.Valid()
    reads t, t.nodes
  {
    Written(RecordsOf(TreeFiles(t), alg, hash, distributor))
  }

  /**
   The checker accepts the digest made for the same role exactly when the root
   is not among the files of the walk and every file the role signs can be hashed.
   */
  lemma DigestAgreement(t: Tree, stale: string, alg: Algorithm, hash: Hasher, distributor: bool)
    requires t.Valid() && Proper(hash) && forall f :: f in TreeFiles(t) ==> '\n' !in f.text
    ensures Accepts(DigestOf(t, alg, hash, distributor), TreeFiles(t), NamesOf(t, stale), hash, distributor) <==>
            File([], "") !in TreeFiles(t) &&
            forall f :: f in TreeFiles(t) && Wanted(f, distributor) ==> hash(f.text, alg).Hash?
  {
    hide Tree.Valid, TextOf, Accepts, RecordsOf, Written, KindOf, NamesOf, Listing, TreeFiles, Components;
    var files := TreeFiles(t);
    TreeListing(t, stale);
    MadeIsAccepted(files, NamesOf(t, stale), alg, hash, distributor);
    EmptyIsPlain();
    forall f | f in files ensures f.text == "" <==> f == File([], "") {
      var i :| 0 <= i < |files| && files[i] == f;
      var n := WalkFacts(t, i);
      TextLeadsBack(t, n);
      RootFacts(t, n);
    }
    if File([], "") in files {
      assert Wanted(File([], ""), distributor);
    }
  }

  /** Each entry that the walk comes to has a text that can be written in a record. */
  ghost predicate Writable(t: Tree)
    requires t.Valid()
    reads t, t.nodes
  {
    forall n :: n in t.nodes && n.added && Reached(t, n) ==> '\n' !in TextOf(t, n)
  }

  lemma WritableFiles(t: Tree)
    requires t.Valid() && Writable(t)
    ensures forall f :: f in TreeFiles(t) ==> '\n' !in f.text
  {
    hide Tree.Valid, TextOf, TreeFiles, Reached;
    forall f | f in TreeFiles(t) ensures '\n' !in f.text { var n := FilesReached(t, f); }
  }

  /**
   The same for the hashes computed from bytes: a digest is accepted exactly
   when every entry to sign that the walk comes to has a name and a hash.
   */
  lemma HashedAgreement(t: Tree, stale: string, alg: Algorithm, raw: (string, Algorithm) -> RawHash, distributor: bool)
    requires t.Valid() && ProperRaw(raw) && Writable(t)
    ensures Accepts(DigestOf(t, alg, TextHasher(raw), distributor), TreeFiles(t), NamesOf(t, stale), TextHasher(raw), distributor) <==>
            forall n :: n in t.nodes && n.added && Reached(t, n) && Wanted(File(n.path, TextOf(t, n)), distributor) ==>
              n != t.root && raw(TextOf(t, n), alg).RawHash?
  {
    hide Tree.Valid, TextOf, Accepts, KindOf, NamesOf, TreeFiles, Hex, Walk, Reached, RecordsOf, Written, Listing;
    var files, hash := TreeFiles(t), TextHasher(raw);
    TextHasherProper(raw);
    WritableFiles(t);
    TreeListing(t, stale);
    MadeIsAccepted(files, NamesOf(t, stale), alg, hash, distributor);
    forall path ensures hash(path, alg).Hash? <==> raw(path, alg).RawHash? { HashedIff(raw, path, alg); }
    forall f | f in files ensures exists n :: n in t.nodes && n.added && Reached(t, n) && f == File(n.path, TextOf(t, n)) {
      var n := FilesReached(t, f);
    }
    forall n | n in t.nodes && n.added
      ensures Reached(t, n) ==> File(n.path, TextOf(t, n)) in files
      ensures TextOf(t, n) == "" <==> n == t.root
    {
      WalkedIff(t, n);
      TextLeadsBack(t, n);
    }
  }

  lemma HashedIff(raw: (string, Algorithm) -> RawHash, path: string, alg: Algorithm)
    requires ProperRaw(raw)
    ensures TextHasher(raw)(path, alg).Hash? <==> raw(path, alg).RawHash?
  {
    assert raw(path, alg).RawHash? ==> Bytes(raw(path, alg).bytes);
  }

  /** Whatever is accepted says what it must of every added entry that the walk comes to. */
  lemma AcceptedTree(t: Tree, text: string, stale: string, hash: Hasher, distributor: bool, n: Node)
    requires t.Valid() && Proper(hash) && n in t.nodes && n.added && Reached(t, n)
    requires Accepts(text, TreeFiles(t), NamesOf(t, stale), hash, distributor)
    ensures KindOf(TextOf(t, n)) == Plain ==> Attested(text, n.path, NamesOf(t, stale), hash)
    ensures KindOf(TextOf(t, n)) == Author ==> (Attested(text, n.path, NamesOf(t, stale), hash) <==> distributor)
    ensures KindOf(TextOf(t, n)) == Distributor ==> n.path !in Marks(Records(text))
  {
    hide Tree.Valid, TextOf, Accepts, KindOf, NamesOf, TreeFiles, Reached, Attested, Marks, Records;
    WalkedIff(t, n);
    AcceptedIsSound(text, TreeFiles(t), NamesOf(t, stale), hash, distributor, File(n.path, TextOf(t, n)));
  }

  /** The digest made for a tree attests an added entry exactly when the walk comes to it, the role signs it and it has a hash. */
  lemma MadeAttests(t: Tree, stale: string, alg: Algorithm, hash: Hasher, distributor: bool, n: Node)
    requires t.Valid() && Proper(hash) && Writable(t) && n in t.nodes && n.added && n != t.root
    ensures Attested(DigestOf(t, alg, hash, distributor), n.path, NamesOf(t, stale), hash) <==>
            Reached(t, n) && Wanted(File(n.path, TextOf(t, n)), distributor) && hash(TextOf(t, n), alg).Hash?
  {
    hide Tree.Valid, TextOf, KindOf, Wanted, NamesOf, TreeFiles, Reached, Components, RecordsOf, Written, Records, HashLength;
    var files, f, names := TreeFiles(t), File(n.path, TextOf(t, n)), NamesOf(t, stale);
    var rs := RecordsOf(files, alg, hash, distributor);
    WritableFiles(t);
    WrittenReads(files, alg, hash, distributor);
    WalkedIff(t, n);
    TextLeadsBack(t, n);
    if Attested(DigestOf(t, alg, hash, distributor), n.path, names, hash) {
      var r :| r in rs && Components(r.name) == n.path;
      var g := RecordsFrom(files, alg, hash, distributor, r);
      var m := FilesReached(t, g);
      TextLeadsBack(t, m);
      PathText.SamePath(t, m, n);
    }
    if f in files && Wanted(f, distributor) && hash(f.text, alg).Hash? {
      var m := FilesReached(t, f);
      RecordsHold(files, alg, hash, distributor, f);
      NameIs(t, n, stale);
      assert Clipped(f.text) == f.text;
      OwnRecord(f, alg, names, hash, hash(f.text, alg).text);
    }
  }

  /**
   When its digest is accepted, every added entry that a role signs is attested
   if and only if the walk comes to all of them.
   */
  lemma AllAttestedIff(t: Tree, stale: string, alg: Algorithm, raw: (string, Algorithm) -> RawHash, distributor: bool)
    requires t.Valid() && ProperRaw(raw) && Writable(t) && !t.root.added
    requires Accepts(DigestOf(t, alg, TextHasher(raw), distributor), TreeFiles(t), NamesOf(t, stale), TextHasher(raw), distributor)
    ensures (forall n :: n in t.nodes && n.added && Wanted(File(n.path, TextOf(t, n)), distributor) ==>
               Attested(DigestOf(t, alg, TextHasher(raw), distributor), n.path, NamesOf(t, stale), TextHasher(raw))) <==>
            (forall n :: n in t.nodes && n.added && Wanted(File(n.path, TextOf(t, n)), distributor) ==> Reached(t, n))
  {
    hide Tree.Valid, TextOf, Accepts, Wanted, NamesOf, TreeFiles, Reached, Attested, DigestOf, Writable, TextHasher, ProperRaw;
    TextHasherProper(raw);
    HashedAgreement(t, stale, alg, raw, distributor);
    forall n | n in t.nodes && n.added && Wanted(File(n.path, TextOf(t, n)), distributor)
      ensures Attested(DigestOf(t, alg, TextHasher(raw), distributor), n.path, NamesOf(t, stale), TextHasher(raw)) <==> Reached(t, n)
    {
      MadeAttests(t, stale, alg, TextHasher(raw), distributor, n);
      HashedIff(raw, TextOf(t, n), alg);
    }
  }

  lemma EmptyIsPlain()
    ensures KindOf("") == Plain
  {
  }

  /** Started at a named entry with its path in the buffer, the walk writes the name of that entry twice. */
  lemma {:induction false} NameRepeated(t: Tree, root: Node, m: Node)
    requires t.Valid() && root in t.nodes && m in Below(t, root)
    ensures PathText.Spell(t, TextOf(t, root), false, root, m) == TextOf(t, m) <==> root == t.root
    ensures root != t.root ==> |PathText.Spell(t, TextOf(t, root), false, root, m)| == |TextOf(t, m)| + 1 + |root.name|
    decreases |m.path|
  {
    hide Tree.Valid;
    RootFacts(t, root);
    RootFacts(t, m);
    if root == t.root {
      TextLeadsBack(t, root);
    } else {
      TextsAgree(t, root);
      PathText.Facts(t, root);
      if m != root {
        PathText.Up(t, root, m);
        NameRepeated(t, root, m.parent);
        RootFacts(t, m.parent);
        TextStep(t, m);
        TextLeadsBack(t, m.parent);
        PathText.Facts(t, m);
      }
    }
  }

  // --------------------------------------------------------------------- making

  /** Puts text at a position, as far as there is room. */
  method Put(buffer: array<char>, pos: nat, s: string, ghost before: string) returns (next: nat)
    requires PathText.Begun(buffer[..], buffer.Length, before) && pos == |before|
    modifies buffer
    ensures PathText.Begun(buffer[..], buffer.Length, before + s) && next == |before + s|
  {
    if pos < buffer.Length {
      var len := if buffer.Length - pos < |s| then buffer.Length - pos else |s|;
      CopyIn(buffer, pos, s[..len]);
      var m := PathText.Min(buffer.Length, |before + s|);
      assert (before + s)[..m] == before + s[..len];
    } else {
      assert (before + s)[..buffer.Length] == before[..buffer.Length];
    }
    next := pos + |s|;
  }

  method PutRecord(buffer: array<char>, pos: nat, r: Record, ghost before: string) returns (next: nat)
    requires PathText.Begun(buffer[..], buffer.Length, before) && pos == |before|
    modifies buffer
    ensures PathText.Begun(buffer[..], buffer.Length, before + RecordText(r)) && next == |before + RecordText(r)|
  {
    hide PathText.Begun;
    next := Put(buffer, pos, r.hash, before);
    next := Put(buffer, next, " ", before + r.hash);
    next := Put(buffer, next, r.name, before + r.hash + " ");
    next := Put(buffer, next, "\n", before + r.hash + " " + r.name);
    assert before + r.hash + " " + r.name + "\n" == before + RecordText(r);
  }

  lemma RecordsNext(files: seq<File>, i: nat, alg: Algorithm, hash: Hasher, distributor: bool)
    requires i < |files|
    ensures var rs := RecordsOf(files[..i], alg, hash, distributor);
            var h := hash(files[i].text, alg);
            && Written(RecordsOf(files[..i + 1], alg, hash, distributor)) ==
               Written(rs) + (if Wanted(files[i], distributor) && h.Hash? then RecordText(Record(h.text, files[i].text)) else "")
  {
    hide KindOf;
    var rs := RecordsOf(files[..i], alg, hash, distributor);
    var h := hash(files[i].text, alg);
    assert files[..i + 1][..i] == files[..i];
    if Wanted(files[i], distributor) && h.Hash? {
      var r := Record(h.text, files[i].text);
      assert (rs + [r])[..|rs + [r]| - 1] == rs;
    } else {
      assert rs + [] == rs && Written(rs) + "" == Written(rs);
    }
  }

  /**
   Makes the digest of the added files. The length returned does not depend on
   the buffer, which receives as much of the digest as fits. Files that cannot
   be hashed are passed over.
   */
  method MakeDigest(t: Tree, alg: Algorithm, raw: (string, Algorithm) -> RawHash, buffer: array<char>, distributor: bool) returns (pos: nat)
    requires t.Valid() && t.root in t.nodes && ProperRaw(raw)
    modifies buffer
    ensures pos == |DigestOf(t, alg, TextHasher(raw), distributor)|
    ensures PathText.Begun(buffer[..], buffer.Length, DigestOf(t, alg, TextHasher(raw), distributor))
  {
    hide Tree.Valid, PathText.Fits, PathText.Spelled, PathText.Trail, PathText.Begun, Written, RecordsOf, Wanted, RecordText, ProperRaw, TextHasher;
    var scratch := new char[PATH_MAX];
    assert scratch[0..0 + 0] == "";
    var rc, log := PathText.DoForEach(t, t.root, scratch, 0, PATH_MAX, 0, false, true, false);
    ghost var files, hash := TreeFiles(t), TextHasher(raw);
    assert PathText.Walked(rc == 0, log) == Walk(t);
    ghost var text := "";
    pos := 0;
    NothingWritten(alg, hash, distributor, buffer[..]);
    assert files[..0] == [];
    for i := 0 to |log|
      invariant text == Written(RecordsOf(files[..i], alg, hash, distributor))
      invariant pos == |text| && PathText.Begun(buffer[..], buffer.Length, text)
    {
      RecordsNext(files, i, alg, hash, distributor);
      var kind := SignatureType(log[i].text);
      var wanted := if distributor then kind != Distributor else kind == Plain;
      WantedIs(files[i], kind, distributor);
      if wanted {
        var h := EntryHash(raw, log[i].text, alg);
        if h.Hash? {
          pos := PutRecord(buffer, pos, Record(h.text, log[i].text), text);
          text := text + RecordText(Record(h.text, log[i].text));
        } else {
          assert text + "" == text;
        }
      } else {
        assert text + "" == text;
      }
    }
    assert files[..|log|] == files;
  }

  /** The two passes of a signer: the length of the digest, then the digest, which fills the room allocated exactly. */
  method MakeWhole(t: Tree, alg: Algorithm, raw: (string, Algorithm) -> RawHash, distributor: bool) returns (buffer: array<char>)
    requires t.Valid() && t.root in t.nodes && ProperRaw(raw)
    ensures fresh(buffer) && buffer[..] == DigestOf(t, alg, TextHasher(raw), distributor)
  {
    hide Tree.Valid, DigestOf, ProperRaw, TextHasher;
    var nothing := new char[0];
    var size := MakeDigest(t, alg, raw, nothing, distributor);
    buffer := new char[size];
    var length := MakeDigest(t, alg, raw, buffer, distributor);
    ghost var text := DigestOf(t, alg, TextHasher(raw), distributor);
    assert text[..|text|] == text && buffer[..] == buffer[..][..size];
  }

  lemma WantedIs(f: File, kind: Signature, distributor: bool)
    requires kind == KindOf(f.text)
    ensures Wanted(f, distributor) <==> if distributor then kind != Distributor else kind == Plain
  {
  }

  lemma NothingWritten(alg: Algorithm, hash: Hasher, distributor: bool, b: seq<char>)
    ensures Written(RecordsOf([], alg, hash, distributor)) == "" && PathText.Begun(b, |b|, "")
  {
  }

  // -------------------------------------------------------------------- checking

  /** The end of a field. */
  method FieldEnd(text: string, it: nat, c: char) returns (end: nat)
    requires it <= |text|
    ensures it <= end <= |text| && end - it == UpTo(text[it..], c)
  {
    end := it;
    while end < |text| && text[end] != c
      invariant it <= end <= |text| && UpTo(text[it..], c) == end - it + UpTo(text[end..], c)
    {
      assert text[end..][1..] == text[end + 1..];
      end := end + 1;
    }
  }

  /** One field and the position after its end. */
  method Field(text: string, it: nat, c: char) returns (field: string, next: nat)
    requires it <= |text|
    ensures it <= next <= |text| && (it < |text| ==> it < next)
    ensures field == text[it..][..UpTo(text[it..], c)] && text[next..] == Past(text[it..], c)
  {
    var end := FieldEnd(text, it, c);
    field := text[it..end];
    next := if end < |text| then end + 1 else end;
  }

  /** Checks one record. */
  method CheckRecord(t: Tree, r: Record, raw: (string, Algorithm) -> RawHash, stale: string) returns (rc: int, entry: Node?)
    requires t.Valid() && t.root in t.nodes && ProperRaw(raw)
    ensures rc == RecordError(r, NamesOf(t, stale), TextHasher(raw))
    ensures rc == 0 ==> entry != null && entry in t.nodes && entry.path == Components(r.name)
  {
    hide Tree.Valid, Components, NamesOf, TextOf, ProperRaw, TextHasher;
    rc, entry := 0, null;
    if r.hash == "" || r.name == "" {
      return -EINVAL, null;
    }
    NamesAre(t, stale);
    RootFacts(t, t.root);
    assert t.root.path + Components(r.name) == Components(r.name);
    entry := t.Get(t.root, r.name);
    if entry == null {
      return -ENOENT, null;
    }
    NameOfNode(t, entry);
    var alg := AlgorithmOf(|r.hash|);
    if alg == None {
      return -EINVAL, null;
    }
    var path := OpenedPath(t, entry, stale);
    NameIs(t, entry, stale);
    var h := EntryHash(raw, path, alg.value);
    match h {
      case Failure(code) => rc := code;
      case Hash(text) => rc := if text == r.hash then 0 else -EBADF;
    }
  }

  /** The path by which an entry is opened. */
  method OpenedPath(t: Tree, entry: Node, stale: string) returns (path: string)
    requires t.Valid() && t.root in t.nodes && entry in t.nodes
    ensures path == if entry == t.root then stale else Clipped(TextOf(t, entry))
  {
    hide Tree.Valid, TextOf, PathText.RelText;
    var room := new char[PATH_MAX + 1];
    var n := PathText.RelPath(t, entry, room, 0, PATH_MAX + 1, null, PathText.Auto);
    if entry == t.root {
      return stale;
    }
    TextsAgree(t, entry);
    ghost var text := TextOf(t, entry);
    assert room[0..] == room[..];
    var len := if n < PATH_MAX then n else PATH_MAX;
    ghost var whole := PathText.Min(PATH_MAX + 1, n);
    assert room[..whole][..len] == text[..whole][..len];
    room[PATH_MAX] := '\0';
    path := room[..len];
    assert path == text[..len];
  }

  lemma NamesAre(t: Tree, stale: string)
    requires t.Valid()
    ensures forall p :: p in NamesOf(t, stale) <==> p in t.Paths()
  {
  }

  lemma NameOfNode(t: Tree, n: Node)
    requires t.Valid() && n in t.nodes
    ensures n.path in t.Paths()
  {
  }

  lemma RecordsFirst(text: string, it: nat)
    requires it <= |text|
    ensures it < |text| ==> Records(text[it..]) == [HeadRecord(text[it..])] + Records(Past(Past(text[it..], ' '), '\n'))
    ensures it == |text| ==> Records(text[it..]) == []
  {
  }

  lemma ErrorsSplit(done: seq<Record>, rest: seq<Record>, names: Names, hash: Hasher)
    requires FirstError(done, names, hash) != 0
    ensures FirstError(done + rest, names, hash) == FirstError(done, names, hash)
    decreases |rest|
  {
    if rest == [] {
      assert done + rest == done;
    } else {
      assert (done + rest)[..|done + rest| - 1] == done + rest[..|rest| - 1];
      ErrorsSplit(done, rest[..|rest| - 1], names, hash);
    }
  }

  lemma ErrorsNext(done: seq<Record>, r: Record, names: Names, hash: Hasher)
    requires FirstError(done, names, hash) == 0
    ensures FirstError(done + [r], names, hash) == RecordError(r, names, hash)
    ensures Marks(done + [r]) == Marks(done) + {Components(r.name)}
  {
    hide Components, RecordError;
    assert (done + [r])[..|done + [r]| - 1] == done;
  }

  /** The added entries that are marked are those named by records. */
  ghost predicate Marked(t: Tree, marks: set<Node>, paths: set<Path>)
    reads t, t.nodes
  {
    forall n :: n in t.nodes && n.added ==> (n in marks <==> n.path in paths)
  }

  lemma MarkedMore(t: Tree, marks: set<Node>, paths: set<Path>, entry: Node)
    requires t.Valid() && Marked(t, marks, paths) && entry in t.nodes
    ensures Marked(t, marks + {entry}, paths + {entry.path})
  {
    hide Tree.Valid;
    forall n | n in t.nodes && n.added ensures n in marks + {entry} <==> n.path in paths + {entry.path} {
      PathText.SamePath(t, n, entry);
    }
  }

  /** Checks the records one after the other, marking the entries they name. */
  method CheckRecords(t: Tree, text: string, raw: (string, Algorithm) -> RawHash, stale: string, before: set<Node>)
    returns (rc: int, marks: set<Node>)
    requires t.Valid() && t.root in t.nodes && ProperRaw(raw)
    requires Marked(t, before, {})
    ensures rc == FirstError(Records(text), NamesOf(t, stale), TextHasher(raw))
    ensures rc == 0 ==> Marked(t, marks, Marks(Records(text)))
  {
    hide Tree.Valid, Components, NamesOf, Records, HeadRecord, Past, FirstError, RecordError, Marks, Marked, UpTo, ProperRaw, TextHasher;
    ghost var hash := TextHasher(raw);
    ghost var names, done := NamesOf(t, stale), [];
    var it := 0;
    rc, marks := 0, before;
    assert text[0..] == text && done + Records(text) == Records(text);
    NoRecords(names, hash);
    while it < |text|
      invariant it <= |text| && rc == 0
      invariant Records(text) == done + Records(text[it..])
      invariant FirstError(done, names, hash) == 0 && Marked(t, marks, Marks(done))
      decreases |text| - it
    {
      RecordsFirst(text, it);
      ghost var from := it;
      var h, name, entry;
      h, it := Field(text, it, ' ');
      name, it := Field(text, it, '\n');
      HeadIs(text, from, h, name);
      var r := Record(h, name);
      rc, entry := CheckRecord(t, r, raw, stale);
      ErrorsNext(done, r, names, hash);
      assert done + ([r] + Records(text[it..])) == done + [r] + Records(text[it..]);
      if rc != 0 {
        ErrorsSplit(done + [r], Records(text[it..]), names, hash);
        return;
      }
      MarkedMore(t, marks, Marks(done), entry);
      marks := marks + {entry};
      done := done + [r];
    }
    RecordsFirst(text, it);
    assert done + [] == done;
  }

  lemma NoRecords(names: Names, hash: Hasher)
    ensures FirstError([], names, hash) == 0 && Marks([]) == {}
  {
  }

  lemma HeadIs(text: string, from: nat, h: string, name: string)
    requires from <= |text|
    requires h == text[from..][..UpTo(text[from..], ' ')]
    requires var rest := Past(text[from..], ' '); name == rest[..UpTo(rest, '\n')]
    ensures HeadRecord(text[from..]) == Record(h, name)
  {
  }

  /** Removes the marks of the added entries. */
  method ResetMarks(t: Tree, marks: set<Node>) returns (left: set<Node>)
    requires t.Valid() && t.root in t.nodes
    ensures Marked(t, left, {})
  {
    hide Tree.Valid, Ordered, Distinct;
    var visited := ForEach(t, t.root, false, true);
    left := marks;
    for i := 0 to |visited|
      invariant forall n :: n in visited[..i] ==> n !in left
    {
      left := left - {visited[i]};
    }
    assert visited[..|visited|] == visited;
    forall n | n in t.nodes && n.added ensures n !in left { RootFacts(t, n); }
  }

  /** Counts the entries marked against their kind. */
  method CountErrors(t: Tree, log: seq<PathText.Visit>, marks: set<Node>, distributor: bool) returns (errors: nat)
    ensures errors == 0 <==> forall i :: 0 <= i < |log| ==> RightlyMarked(log[i], marks, distributor)
  {
    errors := 0;
    for i := 0 to |log|
      invariant errors == 0 <==> forall k :: 0 <= k < i ==> RightlyMarked(log[k], marks, distributor)
    {
      var kind := SignatureType(log[i].text);
      var signed := log[i].node in marks;
      var wrong := match kind
        case Plain => !signed
        case Author => signed != distributor
        case Distributor => signed;
      if wrong {
        errors := errors + 1;
      }
    }
  }

  ghost predicate RightlyMarked(v: PathText.Visit, marks: set<Node>, distributor: bool) {
    RightlySigned(File(v.node.path, v.text), v.node in marks, distributor)
  }

  /** Checks a digest: accepted, or refused with the code of its first bad record or for a wrong mark. */
  method CheckDigest(t: Tree, text: string, raw: (string, Algorithm) -> RawHash, distributor: bool, stale: string, before: set<Node>)
    returns (rc: int)
    requires t.Valid() && t.root in t.nodes && ProperRaw(raw)
    ensures var names, hash := NamesOf(t, stale), TextHasher(raw);
            && (rc == 0 <==> Accepts(text, TreeFiles(t), names, hash, distributor))
            && (rc != 0 ==> rc == if FirstError(Records(text), names, hash) != 0 then FirstError(Records(text), names, hash) else -EBADF)
  {
    hide Tree.Valid, PathText.Fits, PathText.Spelled, Traversal, NamesOf, Records, Marked, Marks, FirstError, RecordError, RightlySigned;
    hide PathText.Trail, ProperRaw, TextHasher, Order;
    var clear := ResetMarks(t, before);
    ghost var names, hash := NamesOf(t, stale), TextHasher(raw);
    var marks;
    rc, marks := CheckRecords(t, text, raw, stale, clear);
    NoError(Records(text), names, hash);
    if rc != 0 {
      return;
    }
    var scratch := new char[PATH_MAX];
    assert scratch[0..0 + 0] == "";
    var walked, log := PathText.DoForEach(t, t.root, scratch, 0, PATH_MAX, 0, false, true, false);
    assert PathText.Walked(walked == 0, log) == Walk(t);
    var errors := CountErrors(t, log, marks, distributor);
    MarksAre(t, log, marks, Marks(Records(text)), distributor);
    rc := if errors == 0 then 0 else -EBADF;
  }

  lemma MarksAre(t: Tree, log: seq<PathText.Visit>, marks: set<Node>, paths: set<Path>, distributor: bool)
    requires t.Valid() && Marked(t, marks, paths) && log == Walk(t).log
    ensures (forall i :: 0 <= i < |log| ==> RightlyMarked(log[i], marks, distributor)) <==>
            forall f :: f in TreeFiles(t) ==> RightlySigned(f, f.path in paths, distributor)
  {
    hide Tree.Valid, RightlySigned, Walk, TextOf;
    var files := TreeFiles(t);
    forall i | 0 <= i < |log|
      ensures RightlyMarked(log[i], marks, distributor) <==> RightlySigned(files[i], files[i].path in paths, distributor)
    {
      var n := WalkFacts(t, i);
    }
    forall f | f in files ensures exists i :: 0 <= i < |log| && files[i] == f { }
  }

  // -------------------------------------------------------------- a path too long

  /** A name with which a path of PATH_MAX characters is full. */
  function LongName(): string {
    seq(PATH_MAX - 1, i => 'a')
  }

  /** The siblings that come after an entry with such a name are not among the files signed. */
  lemma LaterUnsigned(t: Tree, stale: string, alg: Algorithm, hash: Hasher, distributor: bool, i: nat, j: nat)
    requires t.Valid() && Proper(hash) && Writable(t) && i < j < |t.root.children|
    requires |t.root.children[i].name| >= PATH_MAX - 1 && t.root.children[j].added
    ensures t.root in t.nodes && t.root.children[j] in t.nodes && !Reached(t, t.root.children[j])
    ensures !Attested(DigestOf(t, alg, hash, distributor), t.root.children[j].path, NamesOf(t, stale), hash)
  {
    assert t.root in t.nodes;
    hide Tree.Valid, NamesOf, Attested, DigestOf, PathReach.ComesTo, TextOf;
    RootFacts(t, t.root);
    PathReach.ChildFacts(t, t.root, t.root.children[j]);
    PathReach.LaterMissed(t, "", t.root, i, j, PATH_MAX);
    MadeAttests(t, stale, alg, hash, distributor, t.root.children[j]);
  }

  /** A tree with one file, whose digest is made and accepted, and says nothing of that file. */
  method SignNothing(raw: (string, Algorithm) -> RawHash, alg: Algorithm, distributor: bool) returns (t: Tree, text: string, rc: int)
    requires ProperRaw(raw)
    ensures t.Valid() && [LongName()] in t.Added() && text == DigestOf(t, alg, TextHasher(raw), distributor)
    ensures rc == 0 && !Attested(text, [LongName()], NamesOf(t, ""), TextHasher(raw))
  {
    hide Attested, Accepts, NamesOf, DigestOf, TreeFiles, TextHasher, ProperRaw, TextOf, Wanted, Components;
    t := new Tree();
    OneName(LongName());
    var n := t.Add(LongName());
    OnlyTooLong(t, n);
    var buffer := MakeWhole(t, alg, raw, distributor);
    text := buffer[..];
    HashedAgreement(t, "", alg, raw, distributor);
    TextHasherProper(raw);
    MadeAttests(t, "", alg, TextHasher(raw), distributor, n);
    rc := CheckDigest(t, text, raw, distributor, "", {});
  }

  lemma OnlyTooLong(t: Tree, n: Node)
    requires t.Valid() && n in t.nodes && n.path == [LongName()] && t.Added() == {n.path}
    ensures n.added && n != t.root && t.root in t.nodes && Writable(t)
    ensures forall m :: m in t.nodes && m.added ==> m == n && !Reached(t, m)
  {
    hide Order;
    RootFacts(t, n);
    PathText.Facts(t, n);
    var all := Order(t, t.root, false, false);
    PathReach.OrderBelow(t, t.root, false, false);
    assert n in all;
    var j :| 0 <= j < |all| && all[j] == n;
    assert n.parent == t.root by { PathText.SamePath(t, n.parent, t.root); }
    assert n.path[0] == ([] + [n.name])[0] == n.name;
    assert !PathReach.Passes(t, "", false, t.root, all[j], PATH_MAX) by { PathText.SpellSelf(t, "", t.root); }
    assert n.path in t.Added();
    forall m | m in t.nodes && m.added ensures m == n { assert m.path in t.Added(); }
  }
}
