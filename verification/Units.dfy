/**
 Installation of unit files with rollback (src/afmpkg/afmpkg-std.c and
 src/utils/unit-oper.c) over an abstract file system in which writing a file
 and making a link may fail, a failed write leaving a partial file or none.
 */
module Units {
  import opened Options

  datatype Entry = File(content: string) | Link(target: string)

  type Files = map<string, Entry>

  /** A unit; its paths are None when they cannot be computed. */
  datatype Unit = Unit(
    valid: bool,
    content: string,
    path: Option<string>,
    wanted: bool,
    wantsPath: Option<string>,
    wantsTarget: Option<string>)

  datatype Outcome = Done | Nothing | Part(content: string)

  /** The paths a unit owns. */
  function PathsOf(u: Unit): set<string> {
    (if u.path.Some? then {u.path.value} else {}) +
    (if u.wanted && u.wantsPath.Some? then {u.wantsPath.value} else {})
  }

  function AllPaths(units: seq<Unit>): set<string> {
    if units == [] then {} else AllPaths(units[..|units| - 1]) + PathsOf(units[|units| - 1])
  }

  /** The units whose descriptor passes its check. */
  function ValidOnes(units: seq<Unit>): seq<Unit> {
    if units == [] then []
    else ValidOnes(units[..|units| - 1]) + (if units[|units| - 1].valid then [units[|units| - 1]] else [])
  }

  lemma ValidNext(units: seq<Unit>, u: Unit)
    ensures AllPaths(ValidOnes(units + [u])) == AllPaths(ValidOnes(units)) + if u.valid then PathsOf(u) else {}
  {
    hide PathsOf;
    assert (units + [u])[..|units + [u]| - 1] == units;
    var v := ValidOnes(units);
    if u.valid {
      assert ValidOnes(units + [u]) == v + [u];
      assert (v + [u])[..|v + [u]| - 1] == v;
    } else {
      assert ValidOnes(units + [u]) == v + [] == v;
    }
  }

  lemma NoUnits()
    ensures AllPaths(ValidOnes([])) == {}
  {
  }

  lemma LessTwice(fs: Files, a: set<string>, b: set<string>)
    ensures (fs - a) - b == fs - (a + b)
  {
  }

  lemma {:induction false} AllValid(units: seq<Unit>)
    requires forall i :: 0 <= i < |units| ==> units[i].valid
    ensures ValidOnes(units) == units
  {
    if units != [] { AllValid(units[..|units| - 1]); }
  }

  lemma {:induction false} PathsAmongAll(units: seq<Unit>, i: nat)
    requires i < |units|
    ensures PathsOf(units[i]) <= AllPaths(units)
  {
    if i < |units| - 1 {
      PathsAmongAll(units[..|units| - 1], i);
    }
  }

  lemma {:induction false} AllPathsFrom(units: seq<Unit>, p: string)
    requires p in AllPaths(units)
    ensures exists i :: 0 <= i < |units| && p in PathsOf(units[i])
  {
    var n := |units| - 1;
    if p in PathsOf(units[n]) {
    } else {
      AllPathsFrom(units[..n], p);
      var i :| 0 <= i < |units[..n]| && p in PathsOf(units[..n][i]);
      assert units[i] == units[..n][i];
    }
  }

  /** Links stand in directories of their own: never where a unit file goes. */
  ghost predicate Separate(units: seq<Unit>) {
    forall i, j :: 0 <= i < |units| && 0 <= j < |units| && units[i].path.Some? && units[j].wanted && units[j].wantsPath.Some? ==>
      units[i].path.value != units[j].wantsPath.value
  }

  const LINKS_MAX := 40

  /** Does a path lead to a file, through links? */
  predicate Reaches(fs: Files, resolve: string -> string, p: string, hops: nat)
    decreases hops
  {
    p in fs && match fs[p]
      case File(_) => true
      case Link(t) => hops > 0 && Reaches(fs, resolve, resolve(t), hops - 1)
  }

  /** A link is there, but leads nowhere. */
  predicate Dangling(fs: Files, resolve: string -> string, p: string) {
    p in fs && !Reaches(fs, resolve, p, LINKS_MAX)
  }

  /** All that is needed to install the unit is there. */
  predicate Complete(u: Unit) {
    u.valid && u.path.Some? && (u.wanted ==> u.wantsPath.Some? && u.wantsTarget.Some?)
  }

  /** The writes and links that installing takes. */
  function Calls(u: Unit): nat {
    if u.wanted then 2 else 1
  }

  function AllCalls(units: seq<Unit>): nat {
    if units == [] then 0 else AllCalls(units[..|units| - 1]) + Calls(units[|units| - 1])
  }

  lemma {:induction false} CallsGrow(units: seq<Unit>, k: nat)
    requires k < |units|
    ensures AllCalls(units[..k + 1]) == AllCalls(units[..k]) + Calls(units[k]) <= AllCalls(units)
    decreases |units| - k
  {
    assert units[..k + 1][..k] == units[..k];
    if k + 1 < |units| { CallsGrow(units, k + 1); } else { assert units[..k + 1] == units; }
  }

  class FileSystem {
    var files: Files
    /** Outcomes of the writes and link creations, in order. */
    const outcome: nat -> Outcome
    const resolve: string -> string
    var calls: nat

    constructor (files: Files, outcome: nat -> Outcome, resolve: string -> string)
      ensures this.files == files && this.outcome == outcome && this.resolve == resolve
    {
      this.files := files;
      this.outcome := outcome;
      this.resolve := resolve;
      calls := 0;
    }

    /** Writes a file, through a link if there is one. */
    method Put(p: string, content: string) returns (rc: int)
      modifies this
      ensures rc == (if outcome(old(calls)) == Done then 0 else -1) && calls == old(calls) + 1
      ensures !(p in old(files) && old(files)[p].Link?) ==>
                && files - {p} == old(files) - {p}
                && !(p in files && files[p].Link?)
                && (rc == 0 ==> p in files && files[p] == File(content))
    {
      var at := if p in files && files[p].Link? then resolve(files[p].target) else p;
      match outcome(calls) {
        case Done =>
          files := files[at := File(content)];
          rc := 0;
        case Nothing =>
          rc := -1;
        case Part(s) =>
          files := files[at := File(s)];
          rc := -1;
      }
      calls := calls + 1;
    }

    method Symlink(target: string, p: string) returns (rc: int)
      modifies this
      ensures rc == (if p !in old(files) && outcome(old(calls)) == Done then 0 else -1) && calls == old(calls) + 1
      ensures files == if rc == 0 then old(files)[p := Link(target)] else old(files)
    {
      rc := -1;
      if p !in files && outcome(calls) == Done {
        files := files[p := Link(target)];
        rc := 0;
      }
      calls := calls + 1;
    }

    method Unlink(p: string) returns (rc: int)
      modifies this`files
      ensures files == old(files) - {p}
      ensures rc == if p in old(files) then 0 else -1
    {
      rc := if p in files then 0 else -1;
      files := files - {p};
    }

    /** The unit is complete and its paths lead to no file. */
    ghost predicate Absent(u: Unit)
      reads this
    {
      && u.valid && u.path.Some? && (u.wanted ==> u.wantsPath.Some?)
      && forall p :: p in PathsOf(u) ==> !Reaches(files, resolve, p, LINKS_MAX)
    }

    /** Checks that no file of the unit is there yet. */
    method CheckAbsent(u: Unit) returns (rc: int)
      ensures rc == if Absent(u) then 0 else -1
    {
      rc := -1;
      if u.valid {
        if u.path.Some? && !Reaches(files, resolve, u.path.value, LINKS_MAX) {
          rc := 0;
        }
        if u.wanted {
          var rc2 := if u.wantsPath.Some? && !Reaches(files, resolve, u.wantsPath.value, LINKS_MAX) then 0 else -1;
          if rc2 < 0 {
            rc := rc2;
          }
        }
      }
    }

    /** The file and the link of a unit are there. */
    ghost predicate InPlace(u: Unit)
      reads this
    {
      && u.path.Some? && u.path.value in files && files[u.path.value].File?
      && (u.wanted ==> u.wantsPath.Some? && u.wantsTarget.Some? && u.wantsPath.value in files
                       && files[u.wantsPath.value].Link?)
    }

    /** ... with its own content and its own target. */
    ghost predicate Exact(u: Unit)
      reads this
    {
      && InPlace(u) && files[u.path.value] == File(u.content)
      && (u.wanted ==> files[u.wantsPath.value] == Link(u.wantsTarget.value))
    }

    /** A link stands where the unit file goes. */
    ghost predicate LinkAt(u: Unit)
      reads this
    {
      u.path.Some? && u.path.value in files && files[u.path.value].Link?
    }

    /** The file and the link of the unit do not share a path. */
    static predicate TwoPlaces(u: Unit) {
      u.wanted && u.wantsPath.Some? ==> u.path != u.wantsPath
    }

    /** The writes and links that an installation takes all succeed, from call `c` on. */
    ghost predicate Granted(c: nat, n: nat) {
      forall j :: c <= j < c + n ==> outcome(j) == Done
    }

    /** Writes the file of a unit and makes its link. It succeeds exactly when the unit is complete and both succeed. */
    method InstallUnit(u: Unit) returns (rc: int)
      modifies this
      ensures rc == if Complete(u) && Granted(old(calls), Calls(u)) then 0 else -1
      ensures rc == 0 ==> calls == old(calls) + Calls(u)
      ensures !old(LinkAt(u)) ==> files - PathsOf(u) == old(files) - PathsOf(u)
      ensures !old(LinkAt(u)) && TwoPlaces(u) ==> !LinkAt(u) && (rc == 0 ==> Exact(u))
    {
      rc := -1;
      if u.valid && u.path.Some? {
        rc := Put(u.path.value, u.content);
        assert files - PathsOf(u) == (files - {u.path.value}) - PathsOf(u);
        assert old(files) - PathsOf(u) == (old(files) - {u.path.value}) - PathsOf(u);
        assert !old(LinkAt(u)) ==> !LinkAt(u);
        if rc >= 0 && u.wanted {
          rc := -1;
          if u.wantsPath.Some? && u.wantsTarget.Some? {
            var was := Unlink(u.wantsPath.value);
            rc := Symlink(u.wantsTarget.value, u.wantsPath.value);
          }
        }
      }
    }

    /** Everything of the unit is there, each thing once. */
    static predicate Removable(fs: Files, u: Unit) {
      && u.path.Some? && u.path.value in fs
      && (u.wanted ==> u.wantsPath.Some? && u.wantsPath.value in fs - {u.path.value})
    }

    /** Removes what there is of a unit. */
    method UninstallUnit(u: Unit) returns (rc: int)
      modifies this
      ensures u.valid ==> files == old(files) - PathsOf(u)
      ensures !u.valid ==> files == old(files)
      ensures rc == 0 <==> u.valid && Removable(old(files), u)
    {
      rc := -1;
      if u.valid {
        if u.path.Some? {
          rc := Unlink(u.path.value);
        }
        if u.wanted {
          var rc2 := -1;
          if u.wantsPath.Some? {
            rc2 := Unlink(u.wantsPath.value);
          }
          if rc2 < 0 && rc == 0 {
            rc := rc2;
          }
        }
      }
    }

    /** Removes what there is of all the units, whatever fails. */
    method UninstallUnits(units: seq<Unit>) returns (rc: int)
      modifies this
      ensures files == old(files) - AllPaths(ValidOnes(units))
    {
      hide AllPaths, ValidOnes, PathsOf, Removable;
      rc := 0;
      NoUnits();
      assert units[..0] == [] && files == old(files) - {};
      for k := 0 to |units|
        invariant files == old(files) - AllPaths(ValidOnes(units[..k]))
      {
        ValidNext(units[..k], units[k]);
        assert units[..k + 1] == units[..k] + [units[k]];
        ghost var some := AllPaths(ValidOnes(units[..k]));
        var rc2 := UninstallUnit(units[k]);
        LessTwice(old(files), some, PathsOf(units[k]));
        LessTwice(old(files), some, {});
        if rc2 < 0 {
          rc := rc2;
        }
      }
      assert units[..|units|] == units;
    }
  
    /** Nothing stands at any path of the units. */
    ghost predicate Clear(units: seq<Unit>)
      reads this
    {
      forall p :: p in AllPaths(units) ==> p !in files
    }

    /** The checks of all the units, in order. */
    method CheckAll(units: seq<Unit>) returns (rc: int)
      ensures rc == 0 || rc == -1
      ensures rc == 0 <==> forall i :: 0 <= i < |units| ==> Absent(units[i])
      ensures rc == 0 && (forall p :: p in AllPaths(units) ==> !Dangling(files, resolve, p)) ==> Clear(units)
    {
      rc := 0;
      var k := 0;
      while k < |units|
        invariant 0 <= k <= |units| && rc == 0
        invariant forall i :: 0 <= i < k ==> Absent(units[i])
      {
        rc := CheckAbsent(units[k]);
        if rc < 0 {
          return;
        }
        k := k + 1;
      }
      forall p | p in AllPaths(units)
        ensures !Reaches(files, resolve, p, LINKS_MAX)
      {
        AllPathsFrom(units, p);
      }
    }

    /** Installs the units until one fails. */
    method InstallAll(units: seq<Unit>) returns (rc: int)
      modifies this
      ensures rc == 0 || rc == -1
      ensures old(Clear(units)) && Separate(units) ==>
                && files - AllPaths(units) == old(files)
                && (rc == 0 ==> forall i :: 0 <= i < |units| ==> InPlace(units[i]))
                && (rc == 0 && Apart(units) ==> forall i :: 0 <= i < |units| ==> Exact(units[i]))
      ensures rc == 0 <==> (forall i :: 0 <= i < |units| ==> Complete(units[i])) && Granted(old(calls), AllCalls(units))
    {
      hide AllPaths, Reaches, AllCalls;
      ghost var clear := Clear(units) && Separate(units);
      rc := 0;
      var k := 0;
      forall i | 0 <= i < |units|
        ensures clear ==> !LinkAt(units[i])
      {
        PathsAmongAll(units, i);
      }
      NoCalls();
      assert units[..0] == [];
      while k < |units|
        invariant 0 <= k <= |units| && rc == 0
        invariant clear ==> files - AllPaths(units) == old(files)
        invariant calls == old(calls) + AllCalls(units[..k]) && Granted(old(calls), AllCalls(units[..k]))
        invariant forall i :: 0 <= i < k ==> Complete(units[i])
        invariant clear ==> forall i :: 0 <= i < |units| ==> !LinkAt(units[i])
        invariant clear ==> forall i :: 0 <= i < k ==> InPlace(units[i])
        invariant clear && Apart(units) ==> forall i :: 0 <= i < k ==> Exact(units[i])
      {
        PathsAmongAll(units, k);
        CallsGrow(units, k);
        MoreGranted(old(calls), AllCalls(units[..k]), Calls(units[k]), AllCalls(units));
        label turn:
        rc := InstallUnit(units[k]);
        if clear {
          Outside(old@turn(files), files, PathsOf(units[k]), AllPaths(units));
        }
        if rc < 0 {
          return;
        }
        if clear {
          Installed@turn(units, k);
        }
        k := k + 1;
      }
      assert units[..k] == units;
    }

    static lemma NoCalls()
      ensures AllCalls([]) == 0
    {
    }

    lemma MoreGranted(c: nat, a: nat, b: nat, n: nat)
      requires a + b <= n
      ensures Granted(c, a) && Granted(c + a, b) <==> Granted(c, a + b)
      ensures Granted(c, n) ==> Granted(c, a + b)
    {
    }

    /** No two units share a path. */
    static ghost predicate Apart(units: seq<Unit>) {
      forall i, j :: 0 <= i < j < |units| ==> PathsOf(units[i]) !! PathsOf(units[j])
    }

    static lemma Outside(a: Files, b: Files, some: set<string>, all: set<string>)
      requires a - some == b - some && some <= all
      ensures a - all == b - all
    {
      assert a - all == (a - some) - all && b - all == (b - some) - all;
    }

    /** One more unit is in place, and the others still are. */
    twostate lemma Installed(units: seq<Unit>, new k: nat)
      requires Separate(units) && k < |units| && Exact(units[k])
      requires files - PathsOf(units[k]) == old(files) - PathsOf(units[k])
      requires forall i :: 0 <= i < |units| ==> !old(LinkAt(units[i]))
      requires forall i :: 0 <= i < k ==> old(InPlace(units[i]))
      ensures forall i :: 0 <= i < |units| ==> !LinkAt(units[i])
      ensures forall i :: 0 <= i <= k ==> InPlace(units[i])
      ensures Apart(units) && (forall i :: 0 <= i < k ==> old(Exact(units[i]))) ==> forall i :: 0 <= i <= k ==> Exact(units[i])
    {
      forall p | p !in PathsOf(units[k])
        ensures p in files <==> p in old(files)
        ensures p in files ==> files[p] == old(files)[p]
      {
        var a, b := files - PathsOf(units[k]), old(files) - PathsOf(units[k]);
        assert p in files <==> p in a;
        assert p in old(files) <==> p in b;
        if p in files { assert files[p] == a[p]; }
      }
    }

    /**
     Installs all the units or none. When no path of theirs holds a dangling
     link, and links do not stand where files go, either everything is in place,
     or the file system is as it was. It succeeds exactly when the units are
     absent and complete and all the writes and links succeed; `rolled` tells that
     the rollback ran: it restores exactly when the paths were free.
     */
    method InstallUnits(units: seq<Unit>) returns (rc: int, ghost rolled: bool)
      modifies this
      ensures (rc == 0 || rc == -1) && (rolled ==> rc < 0)
      ensures Separate(units) && (forall p :: p in AllPaths(units) ==> !old(Dangling(files, resolve, p))) ==>
                && (rc < 0 ==> files == old(files))
                && (rc == 0 ==> files - AllPaths(units) == old(files))
                && (rc == 0 ==> forall i :: 0 <= i < |units| ==> InPlace(units[i]))
                && (rc == 0 && Apart(units) ==> forall i :: 0 <= i < |units| ==> Exact(units[i]))
      ensures rc < 0 && !rolled ==> files == old(files)
      ensures rolled && Separate(units) ==> (files == old(files) <==> old(Clear(units)))
      ensures rolled ==> forall p :: p in AllPaths(units) ==> p !in files
      ensures rc == 0 <==> old(forall i :: 0 <= i < |units| ==> Absent(units[i])) &&
                           (forall i :: 0 <= i < |units| ==> Complete(units[i])) && Granted(old(calls), AllCalls(units))
      ensures rolled <==> rc < 0 && old(forall i :: 0 <= i < |units| ==> Absent(units[i]))
    {
      hide Reaches;
      rolled := false;
      rc := CheckAll(units);
      if rc < 0 {
        return;
      }
      rc := InstallAll(units);
      if rc < 0 {
        rolled := true;
        ghost var before := files;
        AllValid(units);
        var ignored := UninstallUnits(units);
        assert forall p :: p in AllPaths(units) ==> p !in files;
        if old(Clear(units)) && Separate(units) {
          assert files == before - AllPaths(units) == old(files);
        }
      }
    }
  }

  /** A link to nothing passes for a free path, and is lost by the rollback of a write that failed. */
  method RollbackExample() returns (fs: FileSystem, before: Files, rc: int)
    ensures rc == -1 && before == map["/unit" := Link("/nowhere")] && "/unit" !in fs.files
  {
    var u := Unit(true, "content", Some("/unit"), false, None, None);
    before := map["/unit" := Link("/nowhere")];
    fs := new FileSystem(before, k => Nothing, p => p);
    assert Dangling(fs.files, fs.resolve, "/unit");
    assert AllPaths([u]) == {"/unit"} && AllCalls([u]) == 1 by { assert [u][..0] == []; }
    assert fs.outcome(fs.calls) == Nothing;
    ghost var rolled;
    rc, rolled := fs.InstallUnits([u]);
  }

  /** A wanted unit, installed where there is nothing: its file and its link are there. */
  method InstallExample() returns (fs: FileSystem, rc: int)
    ensures rc == 0 && fs.files == map["/unit" := File("content"), "/wants" := Link("../unit")]
  {
    var u := Unit(true, "content", Some("/unit"), true, Some("/wants"), Some("../unit"));
    fs := new FileSystem(map[], k => Done, p => p);
    assert AllPaths([u]) == {"/unit", "/wants"} && AllCalls([u]) == 2 by { assert [u][..0] == []; }
    ghost var rolled;
    rc, rolled := fs.InstallUnits([u]);
    assert fs.Exact(u) && "/wants" != "/unit";
    ghost var other := fs.files - {"/unit", "/wants"};
    assert other == map[];
    forall p | p in fs.files ensures p in {"/unit", "/wants"} {
      assert p in other || p in {"/unit", "/wants"};
    }
  }
}
