/**
 The text of a digest: one record per file, the hash, a space, the name and a
 newline. What the checker accepts is stated over its records.
 */
module DigestFile {
  import opened Digest
  import opened Errors
  import opened Options
  import opened Paths
  import opened TextLines

  /** The hash of the file opened by a path, in text, or the negative code of the failure. */
  datatype Hashed = Hash(text: string) | Failure(code: int)

  type Hasher = (string, Algorithm) -> Hashed

  ghost predicate Proper(hash: Hasher) {
    forall path, alg ::
      match hash(path, alg)
      case Hash(h) => |h| == 2 * HashLength(alg) && forall i :: 0 <= i < |h| ==> IsHex(h[i])
      case Failure(code) => code < 0
  }

  /** The bytes of hashes, as the hash functions give them. */
  datatype RawHash = RawHash(bytes: seq<char>) | RawFailure(code: int)

  ghost predicate ProperRaw(raw: (string, Algorithm) -> RawHash) {
    forall path, alg ::
      match raw(path, alg)
      case RawHash(b) => |b| == HashLength(alg) && Bytes(b)
      case RawFailure(code) => code < 0
  }

  /** The text of hashes. */
  function TextHasher(raw: (string, Algorithm) -> RawHash): Hasher {
    (path, alg) =>
      match raw(path, alg)
      case RawHash(b) => if Bytes(b) then Hash(Hex(b)) else Failure(-EINVAL)
      case RawFailure(code) => Failure(code)
  }

  lemma TextHasherProper(raw: (string, Algorithm) -> RawHash)
    requires ProperRaw(raw)
    ensures Proper(TextHasher(raw))
  {
    hide Hex;
    forall path, alg
      ensures match TextHasher(raw)(path, alg)
              case Hash(h) => |h| == 2 * HashLength(alg) && forall i :: 0 <= i < |h| ==> IsHex(h[i])
              case Failure(code) => code < 0
    {
      assert raw(path, alg).RawHash? || raw(path, alg).RawFailure?;
    }
  }

  /** Computes a hash and turns it into text, in its own room. */
  method EntryHash(raw: (string, Algorithm) -> RawHash, path: string, alg: Algorithm) returns (h: Hashed)
    requires ProperRaw(raw)
    ensures h == TextHasher(raw)(path, alg)
  {
    var r := raw(path, alg);
    match r {
      case RawFailure(code) =>
        h := Failure(code);
      case RawHash(bytes) =>
        var n := |bytes|;
        var value := new char[2 * n + 1](i => if 0 <= i < n then bytes[i] else '\0');
        assert value[..n] == bytes;
        ExpandHex(value, n);
        h := Hash(value[..2 * n]);
    }
  }

  /** A file of the list: its place in the tree and the text of its path. */
  datatype File = File(path: Path, text: string)

  datatype Record = Record(hash: string, name: string)

  // --------------------------------------------------------------------- writing

  predicate Wanted(f: File, distributor: bool) {
    if distributor then KindOf(f.text) != Distributor else KindOf(f.text) == Plain
  }

  /** The records of the wanted files whose hash could be computed. */
  function RecordsOf(files: seq<File>, alg: Algorithm, hash: Hasher, distributor: bool): seq<Record> {
    if files == [] then []
    else
      var f := files[|files| - 1];
      var h := hash(f.text, alg);
      RecordsOf(files[..|files| - 1], alg, hash, distributor) +
      (if Wanted(f, distributor) && h.Hash? then [Record(h.text, f.text)] else [])
  }

  function RecordText(r: Record): string {
    r.hash + " " + r.name + "\n"
  }

  function Written(rs: seq<Record>): string {
    if rs == [] then "" else Written(rs[..|rs| - 1]) + RecordText(rs[|rs| - 1])
  }

  // --------------------------------------------------------------------- reading

  /** What follows the first occurrence of a character. */
  function Past(s: string, c: char): (t: string)
    ensures |t| <= |s| && (s != "" ==> |t| < |s|)
  {
    var n := UpTo(s, c);
    if n < |s| then s[n + 1..] else ""
  }

  /** The record at the head of a text. */
  function HeadRecord(s: string): Record {
    var rest := Past(s, ' ');
    Record(s[..UpTo(s, ' ')], rest[..UpTo(rest, '\n')])
  }

  /** The records of a text, as the checker reads them. */
  function Records(s: string): seq<Record>
    decreases |s|
  {
    if s == "" then [] else [HeadRecord(s)] + Records(Past(Past(s, ' '), '\n'))
  }

  lemma PastIs(a: string, c: char, b: string)
    requires c !in a
    ensures Past(a + [c] + b, c) == b && (a + [c] + b)[..UpTo(a + [c] + b, c)] == a
  {
    UpToIs(a, c, b);
    assert (a + [c] + b)[|a| + 1..] == b && (a + [c] + b)[..|a|] == a;
  }

  /** A record that reads back. */
  predicate Readable(r: Record) {
    ' ' !in r.hash && '\n' !in r.name
  }

  lemma ReadOne(r: Record, more: string)
    requires Readable(r)
    ensures Records(RecordText(r) + more) == [r] + Records(more)
  {
    hide UpTo;
    var tail := r.name + ['\n'] + more;
    var s := RecordText(r) + more;
    assert s == r.hash + [' '] + tail;
    PastIs(r.hash, ' ', tail);
    PastIs(r.name, '\n', more);
    assert HeadRecord(s) == r;
  }

  lemma {:induction false} WrittenConcat(a: seq<Record>, b: seq<Record>)
    ensures Written(a + b) == Written(a) + Written(b)
    decreases |b|
  {
    if b == [] {
      assert a + b == a;
    } else {
      var n := |b| - 1;
      assert (a + b)[..|a + b| - 1] == a + b[..n];
      WrittenConcat(a, b[..n]);
      assert Written(a) + Written(b[..n]) + RecordText(b[n]) == Written(a) + Written(b);
    }
  }

  /** Reading what was written. */
  lemma {:induction false} ReadWritten(rs: seq<Record>)
    requires forall r :: r in rs ==> Readable(r)
    ensures Records(Written(rs)) == rs
    decreases |rs|
  {
    if rs != [] {
      hide Records, RecordText, Readable;
      var r, more := rs[0], rs[1..];
      assert rs == [r] + more && r in rs;
      WrittenConcat([r], more);
      assert [r][..0] == [] && Written([r]) == Written([]) + RecordText(r) == RecordText(r);
      ReadWritten(more);
      ReadOne(r, Written(more));
    } else {
      assert Records("") == [];
    }
  }

  // -------------------------------------------------------------------- checking

  /** The entries of a tree, with the text by which the checker opens each of them. */
  type Names = map<Path, string>

  /** What is wrong with a record; zero if nothing. */
  function RecordError(r: Record, names: Names, hash: Hasher): int {
    if r.hash == "" || r.name == "" then -EINVAL
    else if Components(r.name) !in names then -ENOENT
    else if AlgorithmOf(|r.hash|) == None then -EINVAL
    else
      match hash(names[Components(r.name)], AlgorithmOf(|r.hash|).value)
      case Failure(code) => code
      case Hash(h) => if h == r.hash then 0 else -EBADF
  }

  /** The code of the first record that is wrong. */
  function FirstError(rs: seq<Record>, names: Names, hash: Hasher): int {
    if rs == [] then 0
    else
      var before := FirstError(rs[..|rs| - 1], names, hash);
      if before != 0 then before else RecordError(rs[|rs| - 1], names, hash)
  }

  lemma {:induction false} NoError(rs: seq<Record>, names: Names, hash: Hasher)
    ensures FirstError(rs, names, hash) == 0 <==> forall r :: r in rs ==> RecordError(r, names, hash) == 0
  {
    if rs != [] {
      var n := |rs| - 1;
      NoError(rs[..n], names, hash);
      assert rs == rs[..n] + [rs[n]];
    }
  }

  /** The entries that some record names. */
  function Marks(rs: seq<Record>): set<Path> {
    set r | r in rs :: Components(r.name)
  }

  /** Is the file marked, or not, as its kind and the role ask? */
  predicate RightlySigned(f: File, marked: bool, distributor: bool) {
    match KindOf(f.text)
    case Plain => marked
    case Author => marked == distributor
    case Distributor => !marked
  }

  /** A text is accepted when all its records are right and each file is marked as it must. */
  ghost predicate Accepts(text: string, files: seq<File>, names: Names, hash: Hasher, distributor: bool) {
    && (forall r :: r in Records(text) ==> RecordError(r, names, hash) == 0)
    && (forall f :: f in files ==> RightlySigned(f, f.path in Marks(Records(text)), distributor))
  }

  /** Some record of the text gives the true hash of the entry. */
  ghost predicate Attested(text: string, p: Path, names: Names, hash: Hasher) {
    exists r :: r in Records(text) && Components(r.name) == p && p in names && AlgorithmOf(|r.hash|).Some?
                && hash(names[p], AlgorithmOf(|r.hash|).value) == Hash(r.hash)
  }

  /**
   Whatever text is accepted: every file that is not a signature is attested by
   its true hash, the author's signature is listed exactly for the distributor
   and no distributor's signature is listed.
   */
  lemma AcceptedIsSound(text: string, files: seq<File>, names: Names, hash: Hasher, distributor: bool, f: File)
    requires Proper(hash) && Accepts(text, files, names, hash, distributor) && f in files
    ensures KindOf(f.text) == Plain ==> Attested(text, f.path, names, hash)
    ensures KindOf(f.text) == Author ==> (Attested(text, f.path, names, hash) <==> distributor)
    ensures KindOf(f.text) == Distributor ==> f.path !in Marks(Records(text))
  {
    hide Records, Components, KindOf;
    if f.path in Marks(Records(text)) {
      var r :| r in Records(text) && Components(r.name) == f.path;
      assert RecordError(r, names, hash) == 0;
    }
  }

  // ------------------------------------------------------------------- agreement

  /** The list is that of a tree: places are distinct, texts lead to them. */
  ghost predicate Listing(files: seq<File>, names: Names) {
    && (forall i, j :: 0 <= i < j < |files| ==> files[i].path != files[j].path)
    && (forall f :: f in files ==>
          && f.path in names && Components(f.text) == f.path
          && (f.text != "" ==> names[f.path] == f.text))
  }

  lemma {:induction false} RecordsFrom(files: seq<File>, alg: Algorithm, hash: Hasher, distributor: bool, r: Record) returns (f: File)
    requires r in RecordsOf(files, alg, hash, distributor)
    ensures f in files && Wanted(f, distributor) && hash(f.text, alg) == Hash(r.hash) && r.name == f.text
  {
    hide Wanted;
    var n := |files| - 1;
    if r in RecordsOf(files[..n], alg, hash, distributor) {
      f := RecordsFrom(files[..n], alg, hash, distributor, r);
    } else {
      f := files[n];
    }
  }

  lemma {:induction false} RecordsHold(files: seq<File>, alg: Algorithm, hash: Hasher, distributor: bool, f: File)
    requires f in files && Wanted(f, distributor) && hash(f.text, alg).Hash?
    ensures Record(hash(f.text, alg).text, f.text) in RecordsOf(files, alg, hash, distributor)
  {
    hide Wanted;
    var n := |files| - 1;
    if f != files[n] {
      RecordsHold(files[..n], alg, hash, distributor, f);
    }
  }

  lemma WrittenReads(files: seq<File>, alg: Algorithm, hash: Hasher, distributor: bool)
    requires Proper(hash) && forall f :: f in files ==> '\n' !in f.text
    ensures var rs := RecordsOf(files, alg, hash, distributor); Records(Written(rs)) == rs
  {
    hide Records, Written, RecordsOf, Wanted;
    var rs := RecordsOf(files, alg, hash, distributor);
    forall r | r in rs ensures Readable(r) {
      var f := RecordsFrom(files, alg, hash, distributor, r);
      assert hash(f.text, alg).Hash?;
    }
    ReadWritten(rs);
  }

  /** A record of a wanted file is right if and only if the file has a name. */
  lemma OwnRecord(f: File, alg: Algorithm, names: Names, hash: Hasher, h: string)
    requires Proper(hash) && hash(f.text, alg) == Hash(h)
    requires f.path in names && Components(f.text) == f.path && (f.text != "" ==> names[f.path] == f.text)
    ensures RecordError(Record(h, f.text), names, hash) == 0 <==> f.text != ""
  {
    hide Components;
    assert |h| == 2 * HashLength(alg);
    assert AlgorithmOf(2 * HashLength(alg)) == Some(alg);
  }

  /**
   The checker accepts what the maker wrote for the same role exactly when
   every file that the role signs has a name and a hash.
   */
  lemma MadeIsAccepted(files: seq<File>, names: Names, alg: Algorithm, hash: Hasher, distributor: bool)
    requires Proper(hash) && Listing(files, names) && forall f :: f in files ==> '\n' !in f.text
    ensures Accepts(Written(RecordsOf(files, alg, hash, distributor)), files, names, hash, distributor) <==>
            forall f :: f in files && Wanted(f, distributor) ==> f.text != "" && hash(f.text, alg).Hash?
  {
    hide Records, Written, RecordsOf, RecordError, Components, KindOf;
    var rs := RecordsOf(files, alg, hash, distributor);
    WrittenReads(files, alg, hash, distributor);
    if forall f :: f in files && Wanted(f, distributor) ==> f.text != "" && hash(f.text, alg).Hash? {
      forall r | r in rs ensures RecordError(r, names, hash) == 0 {
        var f := RecordsFrom(files, alg, hash, distributor, r);
        OwnRecord(f, alg, names, hash, r.hash);
      }
      forall f | f in files ensures RightlySigned(f, f.path in Marks(rs), distributor) {
        MarkedIff(files, names, alg, hash, distributor, f);
      }
    } else {
      var f :| f in files && Wanted(f, distributor) && (f.text == "" || !hash(f.text, alg).Hash?);
      MarkedIff(files, names, alg, hash, distributor, f);
      if hash(f.text, alg).Hash? {
        var r := Record(hash(f.text, alg).text, f.text);
        RecordsHold(files, alg, hash, distributor, f);
        OwnRecord(f, alg, names, hash, r.hash);
      }
    }
  }

  /** A file is named by the records exactly when it is wanted and has a hash. */
  lemma MarkedIff(files: seq<File>, names: Names, alg: Algorithm, hash: Hasher, distributor: bool, f: File)
    requires Listing(files, names) && f in files
    ensures f.path in Marks(RecordsOf(files, alg, hash, distributor)) <==> Wanted(f, distributor) && hash(f.text, alg).Hash?
  {
    hide RecordsOf, Components, Wanted;
    var rs := RecordsOf(files, alg, hash, distributor);
    if f.path in Marks(rs) {
      var r :| r in rs && Components(r.name) == f.path;
      var g := RecordsFrom(files, alg, hash, distributor, r);
      assert g.path == f.path;
    }
    if Wanted(f, distributor) && hash(f.text, alg).Hash? {
      RecordsHold(files, alg, hash, distributor, f);
      assert Record(hash(f.text, alg).text, f.text) in rs;
    }
  }

  /** A record is a line, the hash, a space and the name, and the records are written in order. */
  lemma RecordsWritten(r: Record, s: Record)
    ensures Written([r, s]) == r.hash + " " + r.name + "\n" + s.hash + " " + s.name + "\n"
  {
    var both := [r, s];
    assert both[..1] == [r] && [r][..0] == [];
    assert Written([r]) == "" + (r.hash + " " + r.name + "\n") == r.hash + " " + r.name + "\n";
  }

  /** What is wrong with a record, by number: nothing in a field, no such entry, no such length, no hash, another hash. */
  lemma RecordCodes(h: string, name: string, names: Names, hash: Hasher)
    ensures RecordError(Record("", name), names, hash) == RecordError(Record(h, ""), names, hash) == -22
    ensures h != "" && name != "" && Components(name) !in names ==> RecordError(Record(h, name), names, hash) == -2
    ensures h != "" && name != "" && Components(name) in names ==>
              && (|h| !in {56, 64, 96, 128} ==> RecordError(Record(h, name), names, hash) == -22)
              && (|h| == 64 ==> match hash(names[Components(name)], SHA256)
                                case Failure(code) => RecordError(Record(h, name), names, hash) == code
                                case Hash(t) => RecordError(Record(h, name), names, hash) == if t == h then 0 else -9)
  {
    hide Components;
  }
}
