/**
 Domain specifications of certificates (src/utils/domain-spec.c): a list of
 named permissions, its text form "+name,#name,@name", and the order in which
 domains may be delegated along a signing chain.
 */
module DomainSpec {
  import opened CStrings
  import opened Errors
  import opened TextLines

  /** none < grants < auth < root */
  type Perm = p: int | 0 <= p < 4

  const NONE: Perm := 0
  const GRANTS: Perm := 1
  const AUTH: Perm := 2
  const ROOT: Perm := 3

  datatype Domain = Domain(name: string, perm: Perm)

  /** The tags of the permissions, by rank. */
  function Tag(p: Perm): char {
    if p == NONE then NUL else if p == GRANTS then '+' else if p == AUTH then '#' else '@'
  }

  /** Permission of a tag; the loop stops at the first that matches, -1 when none does. */
  function PermOf(c: char): (p: int)
    ensures -1 <= p < 4 && (p >= 0 ==> Tag(p) == c)
  {
    if c == NUL then 0 else if c == '+' then 1 else if c == '#' then 2 else if c == '@' then 3 else -1
  }

  // -------------------------------------------------------------------- lists

  /** First domain of that name, or -1. */
  function Find(ds: seq<Domain>, name: string): (i: int)
    ensures -1 <= i < |ds|
    ensures i >= 0 ==> ds[i].name == name
    ensures i < 0 ==> forall j :: 0 <= j < |ds| ==> ds[j].name != name
    ensures forall j :: 0 <= j < i ==> ds[j].name != name
  {
    if ds == [] then -1
    else if ds[0].name == name then 0
    else
      var k := Find(ds[1..], name);
      if k < 0 then -1 else k + 1
  }

  lemma FindAbsent(ds: seq<Domain>, name: string)
    requires forall i :: 0 <= i < |ds| ==> ds[i].name != name
    ensures Find(ds, name) < 0
  {
  }

  /** Permission of a name, none when it is absent. */
  function PermFor(ds: seq<Domain>, name: string): Perm {
    if Find(ds, name) < 0 then NONE else ds[Find(ds, name)].perm
  }

  ghost predicate DistinctNames(ds: seq<Domain>) {
    forall i, j :: 0 <= i < j < |ds| ==> ds[i].name != ds[j].name
  }

  /** A name that can be written: not empty, without comma and null. */
  predicate Writable(name: string) {
    name != "" && ',' !in name && NUL !in name
  }

  ghost predicate WellFormed(ds: seq<Domain>) {
    DistinctNames(ds) && forall i :: 0 <= i < |ds| ==> Writable(ds[i].name) && ds[i].perm != NONE
  }

  /** In a list of distinct names the permission does not depend on the order. */
  lemma PermAt(ds: seq<Domain>, i: nat)
    requires i < |ds| && DistinctNames(ds)
    ensures PermFor(ds, ds[i].name) == ds[i].perm
  {
    var k := Find(ds, ds[i].name);
    assert forall j :: 0 <= j < i ==> ds[j].name != ds[i].name;
  }

  // --------------------------------------------------------------------- text

  function Item(d: Domain): string {
    [Tag(d.perm)] + d.name
  }

  /** The text of the domains that have a permission, separated by commas. */
  function Text(ds: seq<Domain>): string {
    if ds == [] then ""
    else
      var last := ds[|ds| - 1];
      var before := Text(ds[..|ds| - 1]);
      if last.perm == NONE then before
      else before + (if before == "" then "" else ",") + Item(last)
  }

  /** Size computed before the allocation. */
  function Size(ds: seq<Domain>): nat {
    if ds == [] then 0
    else Size(ds[..|ds| - 1]) + if ds[|ds| - 1].perm == NONE then 0 else |ds[|ds| - 1].name| + 2
  }

  /** The text and its null fill the allocation exactly, unless nothing is printed. */
  lemma {:induction false} SizeIsExact(ds: seq<Domain>)
    ensures Text(ds) == "" <==> Size(ds) == 0
    ensures Text(ds) != "" ==> Size(ds) == |Text(ds)| + 1
  {
    if ds != [] {
      SizeIsExact(ds[..|ds| - 1]);
    }
  }

  /** First pass of the printer: the size to allocate. */
  method Measure(ds: seq<Domain>) returns (sz: nat)
    ensures sz == Size(ds)
  {
    sz := 0;
    for i := 0 to |ds|
      invariant sz == Size(ds[..i])
    {
      assert ds[..i + 1][..i] == ds[..i];
      if ds[i].perm > NONE {
        sz := sz + |ds[i].name| + 2;
      }
    }
    assert ds[..|ds|] == ds;
  }

  /** The two passes of the printer: the buffer is full, and null terminated. */
  method Print(ds: seq<Domain>) returns (str: array<char>, length: nat)
    requires exists i :: 0 <= i < |ds| && ds[i].perm != NONE
    ensures fresh(str) && length == |Text(ds)| && str.Length == length + 1
    ensures str[..] == Text(ds) + [NUL]
  {
    hide Text, Item;
    var sz := Measure(ds);
    SizeIsExact(ds);
    NoText();
    assert ds[..0] == [];
    SomethingPrinted(ds);
    str := new char[sz];
    length := 0;
    for i := 0 to |ds|
      invariant length == |Text(ds[..i])| && length < str.Length
      invariant str[..length] == Text(ds[..i])
    {
      ghost var done := str[..length];
      TextNext(ds, i);
      TextGrows(ds, i + 1);
      if ds[i].perm > NONE {
        var item := (if length > 0 then "," else "") + Item(ds[i]);
        ghost var tail := str[length + |item|..];
        CopyIn(str, length, item);
        assert (done + item + tail)[..length + |item|] == done + item;
        length := length + |item|;
      }
    }
    assert ds[..|ds|] == ds;
    str[length] := NUL;
  }

  lemma NoText()
    ensures Text([]) == ""
  {
  }

  /** The text of one more domain. */
  lemma TextNext(ds: seq<Domain>, i: nat)
    requires i < |ds|
    ensures var before := Text(ds[..i]);
            Text(ds[..i + 1]) == if ds[i].perm == NONE then before else before + ((if |before| > 0 then "," else "") + Item(ds[i]))
  {
    assert ds[..i + 1][..i] == ds[..i];
  }

  lemma {:induction false} TextGrows(ds: seq<Domain>, i: nat)
    requires i <= |ds|
    ensures |Text(ds[..i])| <= |Text(ds)|
    decreases |ds| - i
  {
    if i < |ds| {
      TextGrows(ds, i + 1);
      assert ds[..i + 1][..i] == ds[..i];
    } else {
      assert ds[..i] == ds;
    }
  }

  lemma {:induction false} SomethingPrinted(ds: seq<Domain>)
    requires exists i :: 0 <= i < |ds| && ds[i].perm != NONE
    ensures Text(ds) != ""
  {
    if ds[|ds| - 1].perm == NONE {
      var i :| 0 <= i < |ds| && ds[i].perm != NONE;
      assert ds[..|ds| - 1][i] == ds[i];
      SomethingPrinted(ds[..|ds| - 1]);
    }
  }

  // ------------------------------------------------------------------- parsing

  datatype Result = Ok(domains: seq<Domain>) | Err(rc: int)

  /** Length of the text before the first comma. */
  function NameLength(s: string): (n: nat)
    ensures n <= |s| && ',' !in s[..n] && (n < |s| ==> s[n] == ',')
  {
    UpTo(s, ',')
  }

  /** The domains read from a text, pushed in front of those already read. */
  function Parse(s: string, ds: seq<Domain>): Result
    decreases |s|
  {
    if s == "" then Ok(ds)
    else if PermOf(s[0]) < 0 then Err(-ENOKEY)
    else
      var n := NameLength(s[1..]);
      var name := s[1..n + 1];
      if n == 0 then Err(-ENODATA)
      else if Find(ds, name) >= 0 then Err(-EEXIST)
      else Parse(s[if n + 1 < |s| then n + 2 else n + 1..], [Domain(name, PermOf(s[0]))] + ds)
  }

  lemma {:induction false} NameLengthOf(s: string, t: string)
    ensures NameLength(s) < |s| ==> NameLength(s + t) == NameLength(s)
    ensures NameLength(s) == |s| ==> NameLength(s + "," + t) == |s|
  {
    if s == "" {
      assert s + "," + t == "," + t;
    } else if s[0] != ',' {
      assert (s + t)[1..] == s[1..] + t;
      assert (s + "," + t)[1..] == s[1..] + "," + t;
      NameLengthOf(s[1..], t);
    }
  }

  /** One item of a text, then the rest. */
  lemma ParseStep(s: string, ds: seq<Domain>)
    requires s != ""
    ensures var n := NameLength(s[1..]);
            var name := s[1..n + 1];
            Parse(s, ds) ==
            if PermOf(s[0]) < 0 then Err(-ENOKEY)
            else if n == 0 then Err(-ENODATA)
            else if Find(ds, name) >= 0 then Err(-EEXIST)
            else Parse(s[if n + 1 < |s| then n + 2 else n + 1..], [Domain(name, PermOf(s[0]))] + ds)
  {
    hide NameLength, Find, PermOf;
  }

  lemma NoNames()
    ensures DistinctNames([])
  {
  }

  /** Reading a text and then, after a comma, another. */
  lemma {:induction false} ParseConcat(a: string, b: string, ds: seq<Domain>)
    requires a != "" && a[|a| - 1] != ',' && Parse(a, ds).Ok?
    ensures Parse(a + "," + b, ds) == Parse(b, Parse(a, ds).domains)
    decreases |a|
  {
    hide NameLength, Find, PermOf, Parse;
    ParseStep(a, ds);
    ParseStep(a + "," + b, ds);
    var n := NameLength(a[1..]);
    var name := a[1..n + 1];
    var ab := a + "," + b;
    assert ab[1..] == a[1..] + "," + b == a[1..] + ("," + b);
    NameLengthOf(a[1..], b);
    NameLengthOf(a[1..], "," + b);
    assert NameLength(ab[1..]) == n && ab[1..n + 1] == name && ab[0] == a[0];
    var next := [Domain(name, PermOf(a[0]))] + ds;
    if n + 1 < |a| {
      var rest := a[n + 2..];
      assert a[1..][n] == ',';
      assert ab[n + 2..] == rest + "," + b;
      assert rest != "" && rest[|rest| - 1] == a[|a| - 1];
      ParseConcat(rest, b, next);
    } else {
      assert a[n + 1..] == "";
      ParseNothing(next);
      assert ab[n + 2..] == b;
    }
  }

  function Reversed(ds: seq<Domain>): (r: seq<Domain>)
    ensures |r| == |ds| && forall i :: 0 <= i < |ds| ==> r[i] == ds[|ds| - 1 - i]
  {
    if ds == [] then [] else [ds[|ds| - 1]] + Reversed(ds[..|ds| - 1])
  }

  lemma NameLengthAll(s: string)
    requires ',' !in s
    ensures NameLength(s) == |s|
  {
    UpToAll(s, ',');
  }

  /** One item alone. */
  lemma ParseItem(d: Domain, ds: seq<Domain>)
    requires Writable(d.name) && d.perm != NONE && Find(ds, d.name) < 0
    ensures Parse(Item(d), ds) == Ok([d] + ds)
  {
    var s := Item(d);
    assert s[1..] == d.name;
    NameLengthAll(d.name);
    assert s[1..|d.name| + 1] == d.name && s[|d.name| + 1..] == "";
    assert PermOf(Tag(d.perm)) == d.perm;
  }

  lemma ParseNothing(ds: seq<Domain>)
    ensures Parse("", ds) == Ok(ds)
  {
  }

  /** Parsing the printed text gives back the list, reversed. */
  lemma {:induction false} ParseText(ds: seq<Domain>)
    requires WellFormed(ds)
    ensures Parse(Text(ds), []) == Ok(Reversed(ds))
    ensures ds != [] ==> Text(ds) != "" && Text(ds)[|Text(ds)| - 1] != ','
  {
    hide Parse, Find, NameLength;
    ParseNothing([]);
    if ds != [] {
      var n := |ds| - 1;
      var last, before := ds[n], ds[..n];
      assert Writable(last.name);
      assert WellFormed(before);
      ParseText(before);
      var r := Reversed(before);
      forall i | 0 <= i < |r| ensures r[i].name != last.name { assert r[i] == ds[n - 1 - i]; }
      FindAbsent(r, last.name);
      ParseItem(last, r);
      if before == [] {
        assert Text(ds) == "" + "" + Item(last) == Item(last);
      } else {
        ParseConcat(Text(before), Item(last), []);
        assert Text(ds) == Text(before) + "," + Item(last);
      }
      assert Text(ds)[|Text(ds)| - 1] == last.name[|last.name| - 1];
    }
  }

  /** Printing and parsing keep the permission of every name. */
  lemma RoundTrip(ds: seq<Domain>)
    requires WellFormed(ds)
    ensures Parse(Text(ds), []).Ok?
    ensures forall name :: PermFor(Parse(Text(ds), []).domains, name) == PermFor(ds, name)
  {
    ParseText(ds);
    var r := Reversed(ds);
    assert DistinctNames(r);
    forall name
      ensures PermFor(r, name) == PermFor(ds, name)
    {
      if Find(ds, name) >= 0 {
        var i := Find(ds, name);
        assert r[|ds| - 1 - i] == ds[i];
        PermAt(r, |ds| - 1 - i);
      } else {
        forall i | 0 <= i < |r| ensures r[i].name != name { assert r[i] == ds[|ds| - 1 - i]; }
        FindAbsent(r, name);
      }
    }
  }

  /** How specifications are written: a sign for each permission, and commas. */
  lemma WrittenForm(a: string, b: string, c: string, d: string)
    ensures Text([Domain(a, 1), Domain(b, 2), Domain(c, 0), Domain(d, 3)]) == "+" + a + ",#" + b + ",@" + d
  {
    var x, y, z, w := Domain(a, 1), Domain(b, 2), Domain(c, 0), Domain(d, 3);
    var all := [x, y, z, w];
    assert all[..3] == [x, y, z] && [x, y, z][..2] == [x, y] && [x, y][..1] == [x] && [x][..0] == [];
    assert Text([x]) == "" + "" + ("+" + a);
    assert Text([x, y]) == "+" + a + "," + ("#" + b) == Text([x, y, z]);
    assert Text(all) == "+" + a + "," + ("#" + b) + "," + ("@" + d);
  }

  /** What is refused: an unknown sign, a sign without name, a name twice. */
  lemma UnknownSign(rest: string, c: char)
    requires c !in {'+', '#', '@', NUL}
    ensures Parse([c] + rest, []) == Err(-126)
  {
    hide Parse, NameLength, Find;
    ParseStep([c] + rest, []);
  }

  lemma MissingName(rest: string)
    ensures Parse("+", []) == Err(-61) && Parse("+," + rest, []) == Err(-61)
  {
    hide Parse, Find;
    ParseStep("+", []);
    ParseStep("+," + rest, []);
    assert ("+," + rest)[1..] == "," + rest && "+"[1..] == "";
  }

  lemma NameTwice(name: string)
    requires Writable(name)
    ensures Parse("+" + name + ",@" + name, []) == Err(-17)
  {
    hide Parse, NameLength, Find;
    var one, s := Domain(name, 1), "@" + name;
    FindAbsent([], name);
    ParseItem(one, []);
    assert Item(one) == "+" + name && [one] + [] == [one];
    ParseConcat("+" + name, s, []);
    assert "+" + name + "," + s == "+" + name + ",@" + name;
    ParseStep(s, [one]);
    NameLengthAll(name);
    assert s[1..] == name && s[1..|name| + 1] == name;
    assert [one][0].name == name;
  }

  // ---------------------------------------------------------------- delegation

  /** May a holder of `auth` sign `target`? The loop over the target's domains. */
  predicate AbleToSign(auth: seq<Domain>, target: seq<Domain>) {
    forall i :: 0 <= i < |target| ==> Find(auth, target[i].name) >= 0 && Delegates(auth, target[i])
  }

  predicate Delegates(auth: seq<Domain>, d: Domain) {
    PermFor(auth, d.name) > d.perm || PermFor(auth, d.name) == ROOT
  }

  /** The domain at `j` is the first of that name. */
  ghost predicate FirstNamed(ds: seq<Domain>, name: string, j: int) {
    0 <= j < |ds| && ds[j].name == name && forall k :: 0 <= k < j ==> ds[k].name != name
  }

  /** The signer's first domain of that name is root, or above the one to sign. */
  ghost predicate MaySign(auth: seq<Domain>, d: Domain) {
    exists j :: FirstNamed(auth, d.name, j) && (auth[j].perm == 3 || auth[j].perm > d.perm)
  }

  /** Signing asks that of every domain of the target. */
  lemma AbleToSignIff(auth: seq<Domain>, target: seq<Domain>)
    ensures AbleToSign(auth, target) <==> forall i :: 0 <= i < |target| ==> MaySign(auth, target[i])
  {
    forall i | 0 <= i < |target|
      ensures Find(auth, target[i].name) >= 0 && Delegates(auth, target[i]) <==> MaySign(auth, target[i])
    {
      var k := Find(auth, target[i].name);
      if k >= 0 {
        assert FirstNamed(auth, target[i].name, k);
        assert forall j :: FirstNamed(auth, target[i].name, j) ==> j == k;
      }
    }
  }

  /** The loop over the domains of the target, which ends at the first that cannot be signed. */
  method CanSign(auth: seq<Domain>, target: seq<Domain>) returns (able: bool)
    ensures able <==> AbleToSign(auth, target)
  {
    able := true;
    var i := 0;
    while i < |target| && able
      invariant 0 <= i <= |target|
      invariant able ==> forall j :: 0 <= j < i ==> Find(auth, target[j].name) >= 0 && Delegates(auth, target[j])
      invariant !able ==> !AbleToSign(auth, target)
    {
      var k := Find(auth, target[i].name);
      able := k >= 0 && (auth[k].perm > target[i].perm || auth[k].perm == ROOT);
      i := i + 1;
    }
  }

  /** Who is root for all its names can sign whatever is about them, roots included. */
  lemma RootSignsAll(auth: seq<Domain>, target: seq<Domain>)
    requires forall i :: 0 <= i < |auth| ==> auth[i].perm == 3
    requires forall i :: 0 <= i < |target| ==> exists j :: 0 <= j < |auth| && auth[j].name == target[i].name
    ensures AbleToSign(auth, target)
  {
    forall i | 0 <= i < |target| ensures Find(auth, target[i].name) >= 0 && Delegates(auth, target[i]) {
      var j :| 0 <= j < |auth| && auth[j].name == target[i].name;
    }
  }

  /** Who only grants can sign nothing that has a permission. */
  lemma GrantsSignNothing(auth: seq<Domain>, d: Domain)
    requires forall i :: 0 <= i < |auth| ==> auth[i].perm == 1
    ensures d.perm >= 1 ==> !AbleToSign(auth, [d])
  {
    assert [d][0] == d;
  }

  lemma AbleToSignTransitive(a: seq<Domain>, b: seq<Domain>, c: seq<Domain>)
    requires AbleToSign(a, b) && AbleToSign(b, c)
    ensures AbleToSign(a, c)
  {
    forall i | 0 <= i < |c|
      ensures Find(a, c[i].name) >= 0 && Delegates(a, c[i])
    {
      var k := Find(b, c[i].name);
      assert Delegates(a, b[k]);
      assert Delegates(b, c[i]);
    }
  }

  /** Every specification of a signing chain signs the next. */
  ghost predicate SigningChain(chain: seq<seq<Domain>>) {
    forall i :: 0 <= i < |chain| - 1 ==> AbleToSign(chain[i], chain[i + 1])
  }

  /** Along a chain the first can sign the last. */
  lemma {:induction false} ChainSigns(chain: seq<seq<Domain>>, k: nat)
    requires SigningChain(chain) && 1 <= k < |chain|
    ensures AbleToSign(chain[0], chain[k])
  {
    if k > 1 {
      ChainSigns(chain, k - 1);
      assert AbleToSign(chain[k - 1], chain[k - 1 + 1]);
      AbleToSignTransitive(chain[0], chain[k - 1], chain[k]);
    } else {
      assert AbleToSign(chain[0], chain[0 + 1]);
    }
  }

  /**
   A domain at the end of a chain has a permission all along it, which never
   rises, and strictly falls at every step whose signer is not root.
   */
  lemma {:induction false} PermissionsFall(chain: seq<seq<Domain>>, k: nat, name: string)
    requires SigningChain(chain) && k < |chain| && Find(chain[k], name) >= 0
    ensures forall i :: 0 <= i <= k ==> Find(chain[i], name) >= 0
    ensures forall i :: 0 <= i < k ==>
              PermFor(chain[i], name) > PermFor(chain[i + 1], name) || PermFor(chain[i], name) == ROOT
    ensures forall i, j :: 0 <= i <= j <= k ==> PermFor(chain[i], name) >= PermFor(chain[j], name)
  {
    if k > 0 {
      var d := chain[k][Find(chain[k], name)];
      assert AbleToSign(chain[k - 1], chain[k - 1 + 1]);
      assert Find(chain[k - 1], d.name) >= 0 && Delegates(chain[k - 1], d);
      PermissionsFall(chain, k - 1, name);
    }
  }

  // ----------------------------------------------------------- setting a permission

  /**
   The list after setting the permission of the first `length` characters of a
   text. A name that is missing is searched by its length and added without it.
   */
  function SetIn(ds: seq<Domain>, perm: int, text: string, length: nat): seq<Domain>
    requires length <= |text|
  {
    var k := Find(ds, text[..length]);
    if !(0 <= perm < 4) then ds
    else if perm == NONE then (if k >= 0 then ds[..k] + ds[k + 1..] else ds)
    else if k >= 0 then ds[k := Domain(ds[k].name, perm)]
    else [Domain(text, perm)] + ds
  }

  /** One permission changes, that of the name asked for, and names stay distinct. */
  ghost predicate SetsOne(ds: seq<Domain>, r: seq<Domain>, perm: int, name: string) {
    DistinctNames(r) && forall n :: PermFor(r, n) == if 0 <= perm < 4 && n == name then perm else PermFor(ds, n)
  }

  /** When the length is that of the text, or nothing is to be added. */
  predicate AddsRight(ds: seq<Domain>, perm: int, text: string, length: nat)
    requires length <= |text|
  {
    length == |text| || Find(ds, text[..length]) >= 0 || !(NONE < perm < 4)
  }

  /** Setting works exactly in these cases; in the others a name of the whole text is added, twice if it was there. */
  lemma SetExact(ds: seq<Domain>, perm: int, text: string, length: nat)
    requires length <= |text| && DistinctNames(ds)
    ensures SetsOne(ds, SetIn(ds, perm, text, length), perm, text[..length]) <==> AddsRight(ds, perm, text, length)
    ensures DistinctNames(SetIn(ds, perm, text, length)) <==> AddsRight(ds, perm, text, length) || Find(ds, text) < 0
  {
    hide PermFor, Find, DistinctNames, SetsOne;
    var name := text[..length];
    var k := Find(ds, name);
    if !(0 <= perm < 4) {
      SetsNone(ds, perm, name);
    } else if k >= 0 {
      SetPresent(ds, perm, k);
      assert ds[k].name == name;
    } else if perm == NONE {
      Absent(ds, name);
      assert SetsOne(ds, ds, perm, name) by { RemovesNone(ds, name); }
    } else {
      SetMissing(ds, perm, text, length);
    }
  }

  lemma SetsNone(ds: seq<Domain>, perm: int, name: string)
    requires !(0 <= perm < 4) && DistinctNames(ds)
    ensures SetsOne(ds, ds, perm, name)
  {
  }

  lemma RemovesNone(ds: seq<Domain>, name: string)
    requires PermFor(ds, name) == NONE && DistinctNames(ds)
    ensures SetsOne(ds, ds, NONE, name)
  {
  }

  lemma SetPresent(ds: seq<Domain>, perm: Perm, k: nat)
    requires DistinctNames(ds) && k < |ds|
    ensures var r := if perm == NONE then ds[..k] + ds[k + 1..] else ds[k := Domain(ds[k].name, perm)];
            SetsOne(ds, r, perm, ds[k].name) && DistinctNames(r)
  {
    hide PermFor, DistinctNames;
    if perm == NONE { Spec.Removed(ds, k); } else { Spec.Changed(ds, k, perm); }
  }

  lemma SetMissing(ds: seq<Domain>, perm: Perm, text: string, length: nat)
    requires DistinctNames(ds) && perm != NONE && length <= |text| && Find(ds, text[..length]) < 0
    ensures SetsOne(ds, [Domain(text, perm)] + ds, perm, text[..length]) <==> length == |text|
    ensures DistinctNames([Domain(text, perm)] + ds) <==> Find(ds, text) < 0
  {
    hide PermFor, DistinctNames, Find;
    var name := text[..length];
    Added(ds, text, perm);
    Absent(ds, name);
    assert length == |text| <==> name == text;
  }

  lemma Absent(ds: seq<Domain>, name: string)
    requires Find(ds, name) < 0
    ensures PermFor(ds, name) == NONE
  {
  }

  lemma Added(ds: seq<Domain>, name: string, perm: Perm)
    requires DistinctNames(ds)
    ensures forall n :: PermFor([Domain(name, perm)] + ds, n) == if n == name then perm else PermFor(ds, n)
    ensures DistinctNames([Domain(name, perm)] + ds) <==> Find(ds, name) < 0
  {
    var r := [Domain(name, perm)] + ds;
    assert r[1..] == ds && r[0].name == name;
    if Find(ds, name) >= 0 {
      assert r[0].name == r[Find(ds, name) + 1].name;
    }
  }

  /** The first two characters of "ab,cd" are asked for, and the whole is set. */
  lemma SetByLengthFails()
    ensures SetIn([], GRANTS, "ab,cd", 2) == [Domain("ab,cd", GRANTS)]
    ensures PermFor(SetIn([], GRANTS, "ab,cd", 2), "ab") == NONE
    ensures !DistinctNames(SetIn([Domain("ab,cd", AUTH)], GRANTS, "ab,cd", 2))
  {
    var ds := [Domain("ab,cd", AUTH)];
    assert |"ab,cd"[..2]| == 2 && |"ab,cd"| == 5;
    assert Find(ds, "ab,cd"[..2]) < 0;
    var r := SetIn(ds, GRANTS, "ab,cd", 2);
    assert r[0].name == r[1].name;
  }

  // ------------------------------------------------------------- changing a spec

  /** A specification: the list is changed in place. */
  class Spec {
    var head: seq<Domain>

    constructor ()
      ensures head == []
    {
      head := [];
    }

    /** Reads a text into an empty specification; any error empties it again. */
    method ReadString(str: string) returns (rc: int)
      requires NUL !in str
      modifies this
      ensures old(head) != [] ==> rc == -ENOTEMPTY && head == old(head)
      ensures old(head) == [] ==>
                match Parse(str, [])
                case Ok(ds) => rc == 0 && head == ds
                case Err(e) => rc == e && head == []
      ensures old(head) == [] ==> DistinctNames(head)
    {
      if head != [] {
        return -ENOTEMPTY;
      }
      hide Parse, NameLength, Find, PermOf, DistinctNames;
      rc := 0;
      var pos := 0;
      ParseNothing([]);
      assert str[0..] == str;
      while pos < |str| && rc == 0
        invariant 0 <= pos <= |str|
        invariant rc == 0 ==> Parse(str[pos..], head) == Parse(str, []) && DistinctNames(head)
        invariant rc != 0 ==> Parse(str, []) == Err(rc)
        decreases |str| - pos, if rc == 0 then 1 else 0
      {
        rc, pos := ReadItem(str, pos);
      }
      if rc != 0 {
        head := [];
        NoNames();
      } else {
        assert str[pos..] == "";
        ParseNothing(head);
      }
    }

    /** Reads one item of a text. */
    method ReadItem(str: string, pos: nat) returns (rc: int, next: nat)
      requires pos < |str|
      modifies this
      ensures next <= |str|
      ensures rc == 0 ==> next > pos && Parse(str[pos..], old(head)) == Parse(str[next..], head)
      ensures rc == 0 && old(DistinctNames(head)) ==> DistinctNames(head)
      ensures rc != 0 ==> next == pos && Parse(str[pos..], old(head)) == Err(rc)
    {
      hide Parse, NameLength, Find, PermOf;
      ghost var s := str[pos..];
      ParseStep(s, head);
      rc, next := 0, pos;
      var pe := PermOf(str[pos]);
      if pe < 0 {
        return -ENOKEY, pos;
      }
      var len := NameLength(str[pos + 1..]);
      assert str[pos + 1..] == s[1..];
      var end := pos + 1 + len;
      var name := str[pos + 1..end];
      assert name == s[1..len + 1];
      if len == 0 {
        rc := -ENODATA;
      } else if Find(head, name) >= 0 {
        rc := -EEXIST;
      } else {
        head := [Domain(name, pe)] + head;
        next := if end < |str| then end + 1 else end;
        assert s[if len + 1 < |s| then len + 2 else len + 1..] == str[next..];
      }
    }

    /** Sets the permission of the first `length` characters of a text. */
    method SetLength(perm: int, text: string, length: nat) returns (rc: int)
      requires length <= |text|
      modifies this
      ensures head == SetIn(old(head), perm, text, length)
      ensures rc == if 0 <= perm < 4 then 0 else -EINVAL
    {
      if !(0 <= perm < 4) {
        return -EINVAL;
      }
      rc := 0;
      var k := 0;
      assert head[0..] == head;
      while k < |head| && head[k].name != text[..length]
        invariant 0 <= k <= |head|
        invariant forall i :: 0 <= i < k ==> head[i].name != text[..length]
      {
        k := k + 1;
      }
      FoundAt(head, text[..length], k);
      if perm == NONE {
        if k < |head| {
          head := head[..k] + head[k + 1..];
        }
      } else if k < |head| {
        head := head[k := Domain(head[k].name, perm)];
      } else {
        head := [Domain(text, perm)] + head;
      }
    }

    static lemma FoundAt(ds: seq<Domain>, name: string, k: nat)
      requires k <= |ds| && (forall i :: 0 <= i < k ==> ds[i].name != name) && (k < |ds| ==> ds[k].name == name)
      ensures Find(ds, name) == if k < |ds| then k else -1
    {
    }

    /** Sets the permission of a name; none removes it. */
    method Set(perm: int, name: string) returns (rc: int)
      requires DistinctNames(head)
      modifies this
      ensures DistinctNames(head)
      ensures rc == if 0 <= perm < 4 then 0 else -EINVAL
      ensures forall n :: PermFor(head, n) == if rc == 0 && n == name then perm else old(PermFor(head, n))
    {
      hide PermFor, DistinctNames, SetIn;
      SetExact(head, perm, name, |name|);
      assert name[..|name|] == name;
      rc := SetLength(perm, name, |name|);
    }

    static lemma Removed(ds: seq<Domain>, k: nat)
      requires DistinctNames(ds) && k < |ds|
      ensures var r := ds[..k] + ds[k + 1..];
              && DistinctNames(r)
              && forall n :: PermFor(r, n) == if n == ds[k].name then NONE else PermFor(ds, n)
    {
      var r := ds[..k] + ds[k + 1..];
      assert forall i :: 0 <= i < |r| ==> r[i] == if i < k then ds[i] else ds[i + 1];
      forall n ensures PermFor(r, n) == if n == ds[k].name then NONE else PermFor(ds, n) {
        var i := Find(ds, n);
        if i >= 0 && i != k {
          assert r[if i < k then i else i - 1] == ds[i];
          PermAt(r, if i < k then i else i - 1);
        }
      }
    }

    static lemma Changed(ds: seq<Domain>, k: nat, perm: Perm)
      requires DistinctNames(ds) && k < |ds|
      ensures var r := ds[k := Domain(ds[k].name, perm)];
              && DistinctNames(r)
              && forall n :: PermFor(r, n) == if n == ds[k].name then perm else PermFor(ds, n)
    {
      var r := ds[k := Domain(ds[k].name, perm)];
      forall n ensures PermFor(r, n) == if n == ds[k].name then perm else PermFor(ds, n) {
        var i := Find(ds, n);
        if i >= 0 {
          assert r[i].name == n;
          PermAt(r, i);
          PermAt(ds, i);
        }
      }
    }

    /** Does one of the first `k` domains grant the name? */
    static ghost predicate Granted(ds: seq<Domain>, k: int, name: string)
      requires 0 <= k <= |ds|
    {
      exists i :: 0 <= i < k && ds[i] == Domain(name, GRANTS)
    }

    static lemma GrantedMore(ds: seq<Domain>, k: nat)
      requires k < |ds|
      ensures forall n :: Granted(ds, k + 1, n) <==> (Granted(ds, k, n) || ds[k] == Domain(n, GRANTS))
    {
      forall n ensures Granted(ds, k + 1, n) <==> (Granted(ds, k, n) || ds[k] == Domain(n, GRANTS)) {
        if Granted(ds, k, n) {
          var i :| 0 <= i < k && ds[i] == Domain(n, GRANTS);
          assert 0 <= i < k + 1;
        }
      }
    }

    static lemma GrantedNone(ds: seq<Domain>)
      ensures forall n :: !Granted(ds, 0, n)
    {
    }

    /** When names are distinct it is the permission that tells. */
    static lemma GrantedIff(ds: seq<Domain>, name: string)
      requires DistinctNames(ds)
      ensures Granted(ds, |ds|, name) <==> PermFor(ds, name) == GRANTS
    {
      if Granted(ds, |ds|, name) {
        var i :| 0 <= i < |ds| && ds[i] == Domain(name, GRANTS);
        PermAt(ds, i);
      }
    }

    /** Adds the granted domains of a specification, perhaps this one. */
    method AddGrantings(from: Spec)
      modifies this
      ensures old(DistinctNames(head)) ==> DistinctNames(head)
      ensures forall n :: PermFor(head, n) == if old(Granted(from.head, |from.head|, n)) then GRANTS else old(PermFor(head, n))
    {
      hide PermFor, DistinctNames, Granted;
      var all := from.head;
      GrantedNone(all);
      for k := 0 to |all|
        invariant old(DistinctNames(head)) ==> DistinctNames(head)
        invariant forall n :: PermFor(head, n) == if Granted(all, k, n) then GRANTS else old(PermFor(head, n))
      {
        var d := all[k];
        GrantedMore(all, k);
        if d.perm == GRANTS {
          Grant(d.name);
        }
      }
    }

    method Grant(name: string)
      modifies this
      ensures old(DistinctNames(head)) ==> DistinctNames(head)
      ensures forall n :: PermFor(head, n) == if n == name then GRANTS else old(PermFor(head, n))
    {
      ghost var was := head;
      var i := Find(head, name);
      if i < 0 {
        head := [Domain(name, GRANTS)] + head;
        assert head[1..] == was;
      } else {
        head := head[i := Domain(name, GRANTS)];
        assert forall j :: 0 <= j < |was| ==> head[j].name == was[j].name;
        assert forall n :: Find(head, n) == Find(was, n);
      }
    }
  }
}
