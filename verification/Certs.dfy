/**
 Sorting of certificates, issuers first (src/cert/common-cert.c, `sort_certs`).
 Certificates are handles; `issuer(c, d)` says that `d` issued `c`.
 */
module Certs {
  import opened Sets

  type Cert = nat

  /** A chain of distinct neighbours, each issued by the next. */
  ghost predicate Chain(s: set<Cert>, issuer: (Cert, Cert) -> bool, p: seq<Cert>) {
    && |p| >= 2
    && (forall i :: 0 <= i < |p| ==> p[i] in s)
    && (forall i :: 0 <= i < |p| - 1 ==> Link(issuer, p[i], p[i + 1]))
  }

  ghost predicate Link(issuer: (Cert, Cert) -> bool, c: Cert, d: Cert) {
    c != d && issuer(c, d)
  }

  ghost predicate Joins(s: set<Cert>, issuer: (Cert, Cert) -> bool, p: seq<Cert>, x: Cert, y: Cert) {
    Chain(s, issuer, p) && p[0] == x && p[|p| - 1] == y
  }

  /** No certificate is above itself. Self-signed certificates are allowed. */
  ghost predicate Acyclic(s: set<Cert>, issuer: (Cert, Cert) -> bool) {
    forall p, x :: x in s ==> !Joins(s, issuer, p, x, x)
  }

  /** The certificates some chain leads to. */
  ghost function Above(s: set<Cert>, issuer: (Cert, Cert) -> bool, x: Cert): set<Cert> {
    set y | y in s && exists p :: Joins(s, issuer, p, x, y)
  }

  /** Going up to the issuer leaves strictly fewer certificates above. */
  lemma IssuerHasLessAbove(s: set<Cert>, issuer: (Cert, Cert) -> bool, x: Cert, y: Cert)
    requires Acyclic(s, issuer) && x in s && y in s && Link(issuer, x, y)
    ensures |Above(s, issuer, y)| < |Above(s, issuer, x)|
  {
    var ax, ay := Above(s, issuer, x), Above(s, issuer, y);
    assert y in ax by {
      assert Joins(s, issuer, [x, y], x, y);
    }
    assert y !in ay;
    forall z | z in ay
      ensures z in ax
    {
      var p :| Joins(s, issuer, p, y, z);
      var q := [x] + p;
      assert forall i :: 0 <= i < |q| - 1 ==> Link(issuer, q[i], q[i + 1]);
      assert Joins(s, issuer, q, x, z);
    }
    assert ay <= ax - {y};
    SubsetCard(ay, ax - {y});
  }

  ghost predicate Distinct(c: seq<Cert>) {
    forall i, j :: 0 <= i < j < |c| ==> c[i] != c[j]
  }

  ghost function Entries(c: seq<Cert>): set<Cert> {
    set i | 0 <= i < |c| :: c[i]
  }

  /** No certificate of the first `n` is issued by a later one. */
  ghost predicate IssuersFirst(c: seq<Cert>, issuer: (Cert, Cert) -> bool, n: int) {
    forall i, j :: 0 <= i < n && i < j < |c| ==> !issuer(c[i], c[j])
  }

  /** Exchange of two cells. */
  ghost function Swapped(c: seq<Cert>, i: int, j: int): seq<Cert>
    requires 0 <= i < |c| && 0 <= j < |c|
  {
    c[i := c[j]][j := c[i]]
  }

  lemma SwapKeeps(c: seq<Cert>, i: nat, j: nat, issuer: (Cert, Cert) -> bool)
    requires i < j < |c|
    ensures multiset(Swapped(c, i, j)) == multiset(c)
    ensures Distinct(c) ==> Distinct(Swapped(c, i, j))
    ensures Entries(Swapped(c, i, j)) == Entries(c)
    ensures IssuersFirst(c, issuer, i) ==> IssuersFirst(Swapped(c, i, j), issuer, i)
  {
    var d := Swapped(c, i, j);
    assert d[i] == c[j] && d[j] == c[i];
    forall x ensures x in Entries(d) <==> x in Entries(c) {
      if x in Entries(c) {
        var k :| 0 <= k < |c| && c[k] == x;
        assert d[if k == i then j else if k == j then i else k] == x;
      }
      if x in Entries(d) {
        var k :| 0 <= k < |d| && d[k] == x;
        assert c[if k == i then j else if k == j then i else k] == x;
      }
    }
  }

  /**
   The nested loops of `sort_certs`: they stop because each exchange moves up a
   chain, only permute the entries, and leave none issued by a later one.
   */
  method SortCerts(certs: array<Cert>, issuer: (Cert, Cert) -> bool)
    requires Distinct(certs[..]) && Acyclic(Entries(certs[..]), issuer)
    modifies certs
    ensures multiset(certs[..]) == multiset(old(certs[..]))
    ensures IssuersFirst(certs[..], issuer, certs.Length)
  {
    hide Acyclic, Distinct, Entries;
    ghost var s := Entries(certs[..]);
    var cnt := 0;
    while cnt < certs.Length
      invariant 0 <= cnt <= certs.Length
      invariant multiset(certs[..]) == multiset(old(certs[..]))
      invariant Distinct(certs[..]) && Entries(certs[..]) == s
      invariant IssuersFirst(certs[..], issuer, cnt)
    {
      SettleCell(certs, issuer, cnt, s);
      cnt := cnt + 1;
    }
  }

  /** The inner loop: the cell `cnt` gets a certificate none of the later ones issued. */
  method SettleCell(certs: array<Cert>, issuer: (Cert, Cert) -> bool, cnt: nat, ghost s: set<Cert>)
    requires cnt < certs.Length && Distinct(certs[..]) && Entries(certs[..]) == s && Acyclic(s, issuer)
    requires IssuersFirst(certs[..], issuer, cnt)
    modifies certs
    ensures multiset(certs[..]) == multiset(old(certs[..]))
    ensures Distinct(certs[..]) && Entries(certs[..]) == s
    ensures IssuersFirst(certs[..], issuer, cnt + 1)
  {
    hide Acyclic, Distinct, Entries, Above, IssuersFirst;
    var idx := cnt + 1;
    while idx < certs.Length
      invariant cnt < idx <= certs.Length
      invariant multiset(certs[..]) == multiset(old(certs[..]))
      invariant Distinct(certs[..]) && Entries(certs[..]) == s
      invariant IssuersFirst(certs[..], issuer, cnt)
      invariant forall j :: cnt < j < idx ==> !issuer(certs[cnt], certs[j])
      decreases |Above(s, issuer, certs[cnt])|, certs.Length - idx
    {
      if !issuer(certs[cnt], certs[idx]) {
        idx := idx + 1;
      } else {
        ghost var c := certs[..];
        InEntries(c, cnt, idx);
        SwapKeeps(c, cnt, idx, issuer);
        IssuerHasLessAbove(s, issuer, certs[cnt], certs[idx]);
        var tmp := certs[cnt];
        certs[cnt] := certs[idx];
        certs[idx] := tmp;
        assert certs[..] == Swapped(c, cnt, idx);
        idx := cnt + 1;
      }
    }
    OneMore(certs[..], issuer, cnt);
  }

  lemma InEntries(c: seq<Cert>, i: nat, j: nat)
    requires i < j < |c| && Distinct(c)
    ensures c[i] in Entries(c) && c[j] in Entries(c) && c[i] != c[j]
  {
  }

  lemma OneMore(c: seq<Cert>, issuer: (Cert, Cert) -> bool, n: nat)
    requires n < |c| && IssuersFirst(c, issuer, n)
    requires forall j :: n < j < |c| ==> !issuer(c[n], c[j])
    ensures IssuersFirst(c, issuer, n + 1)
  {
  }

  /** An order with issuers first exists only for certificates without cycles. */
  lemma SortedOnlyIfAcyclic(c: seq<Cert>, issuer: (Cert, Cert) -> bool)
    requires Distinct(c) && IssuersFirst(c, issuer, |c|)
    ensures Acyclic(Entries(c), issuer)
  {
    forall p, x | x in Entries(c)
      ensures !Joins(Entries(c), issuer, p, x, x)
    {
      if Joins(Entries(c), issuer, p, x, x) {
        ChainGoesBack(c, issuer, p, |p| - 1);
      }
    }
  }

  /** Along a chain the positions strictly decrease. */
  lemma {:induction false} ChainGoesBack(c: seq<Cert>, issuer: (Cert, Cert) -> bool, p: seq<Cert>, k: nat)
    requires Distinct(c) && IssuersFirst(c, issuer, |c|) && Chain(Entries(c), issuer, p) && 1 <= k < |p|
    ensures p[k] != p[0]
    ensures forall i, j :: 0 <= i < |c| && 0 <= j < |c| && c[i] == p[0] && c[j] == p[k] ==> j < i
  {
    assert p[0] in Entries(c) && p[k] in Entries(c) && p[k - 1] in Entries(c);
    var m :| 0 <= m < |c| && c[m] == p[k - 1];
    assert Link(issuer, p[k - 1], p[k - 1 + 1]);
    if k > 1 {
      ChainGoesBack(c, issuer, p, k - 1);
    }
    var z :| 0 <= z < |c| && c[z] == p[0];
    var y :| 0 <= y < |c| && c[y] == p[k];
    assert y < m;
  }
}
